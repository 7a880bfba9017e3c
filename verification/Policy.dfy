/**
  The policy engine (src/platform/policy.ts:42-71, 100-141, 176-195): three-valued conditions
  over facts, and the most restrictive contribution wins.
 */
module Policy {
  import opened Basics

  /** A fact or an operand; `Opaque` stands for arrays and objects, equal only to themselves. */
  datatype Value = Null | Num(n: int) | Str(s: string) | Flag(b: bool) | Opaque(id: nat)

  type Facts = map<string, Value>

  datatype Operand = Absent | One(value: Value) | Many(values: seq<Value>)

  datatype Operator = Eq | Neq | In | Exists | Lt | Lte | Gt | Gte | Matches

  datatype Condition =
    | All(subs: seq<Condition>)
    | Any(subs: seq<Condition>)
    | Not(sub: Condition)
    | Test(fact: string, op: Operator, operand: Operand)

  datatype Tri = True | False | Unknown

  /** Whether a pattern matches a string: the library's regular expressions. */
  type Regex = (string, string) -> bool

  function Truth(b: bool): Tri {
    if b then True else False
  }

  predicate Present(facts: Facts, fact: string) {
    fact in facts && facts[fact] != Null
  }

  /** Both sides are numbers. */
  predicate Numbers(v: Value, operand: Operand) {
    v.Num? && operand.One? && operand.value.Num?
  }

  predicate Compare(op: Operator, v: Value, operand: Operand, re: Regex) {
    match op
    case Eq => operand.One? && v == operand.value
    case Neq => !(operand.One? && v == operand.value)
    case In => operand.Many? && v in operand.values
    case Lt => Numbers(v, operand) && v.n < operand.value.n
    case Lte => Numbers(v, operand) && v.n <= operand.value.n
    case Gt => Numbers(v, operand) && v.n > operand.value.n
    case Gte => Numbers(v, operand) && v.n >= operand.value.n
    case Matches => v.Str? && operand.One? && operand.value.Str? && re(operand.value.s, v.s)
    case Exists => true
  }

  function EvalTest(c: Condition, facts: Facts, re: Regex): Tri
    requires c.Test?
  {
    if c.op == Exists then Truth(Present(facts, c.fact))
    else if !Present(facts, c.fact) then Unknown
    else Truth(Compare(c.op, facts[c.fact], c.operand, re))
  }

  // ---------------------------------------------------------------- conditions

  function Negate(t: Tri): Tri {
    match t case True => False case False => True case Unknown => Unknown
  }

  /** False wins over unknown, unknown over true. */
  function And(a: Tri, b: Tri): Tri {
    if a == False || b == False then False else if a == Unknown || b == Unknown then Unknown else True
  }

  function Or(a: Tri, b: Tri): Tri {
    Negate(And(Negate(a), Negate(b)))
  }

  function Eval(c: Condition, facts: Facts, re: Regex): Tri {
    match c
    case All(subs) => EvalAll(subs, facts, re)
    case Any(subs) => EvalAny(subs, facts, re)
    case Not(sub) => Negate(Eval(sub, facts, re))
    case Test(_, _, _) => EvalTest(c, facts, re)
  }

  function EvalAll(subs: seq<Condition>, facts: Facts, re: Regex): Tri {
    if subs == [] then True else And(Eval(subs[0], facts, re), EvalAll(subs[1..], facts, re))
  }

  function EvalAny(subs: seq<Condition>, facts: Facts, re: Regex): Tri {
    if subs == [] then False else Or(Eval(subs[0], facts, re), EvalAny(subs[1..], facts, re))
  }

  // ---------------------------------------------------------------- what conditions mean

  /** `all` is true exactly when every part is, and false exactly when some part is. */
  lemma {:induction false} AllMeans(subs: seq<Condition>, facts: Facts, re: Regex)
    ensures Eval(All(subs), facts, re) == True <==> forall i :: 0 <= i < |subs| ==> Eval(subs[i], facts, re) == True
    ensures Eval(All(subs), facts, re) == False <==> exists i :: 0 <= i < |subs| && Eval(subs[i], facts, re) == False
    decreases |subs|
  {
    if subs != [] {
      AllMeans(subs[1..], facts, re);
      TailParts(subs, facts, re, True);
      TailParts(subs, facts, re, False);
    }
  }

  /** `any` is true exactly when some part is, and false exactly when every part is. */
  lemma {:induction false} AnyMeans(subs: seq<Condition>, facts: Facts, re: Regex)
    ensures Eval(Any(subs), facts, re) == True <==> exists i :: 0 <= i < |subs| && Eval(subs[i], facts, re) == True
    ensures Eval(Any(subs), facts, re) == False <==> forall i :: 0 <= i < |subs| ==> Eval(subs[i], facts, re) == False
    decreases |subs|
  {
    if subs != [] {
      AnyMeans(subs[1..], facts, re);
      TailParts(subs, facts, re, True);
      TailParts(subs, facts, re, False);
    }
  }

  lemma TailParts(subs: seq<Condition>, facts: Facts, re: Regex, t: Tri)
    requires subs != []
    ensures var head, tail := Eval(subs[0], facts, re), subs[1..];
      && ((exists i :: 0 <= i < |subs| && Eval(subs[i], facts, re) == t)
          <==> head == t || exists i :: 0 <= i < |tail| && Eval(tail[i], facts, re) == t)
      && ((forall i :: 0 <= i < |subs| ==> Eval(subs[i], facts, re) == t)
          <==> head == t && forall i :: 0 <= i < |tail| ==> Eval(tail[i], facts, re) == t)
  {
    hide Eval;
    forall i | 0 < i < |subs|
      ensures Eval(subs[i], facts, re) == Eval(subs[1..][i - 1], facts, re)
    {
      assert subs[i] == subs[1..][i - 1];
    }
    forall i | 0 <= i < |subs[1..]|
      ensures Eval(subs[1..][i], facts, re) == Eval(subs[i + 1], facts, re)
    {
      assert subs[i + 1] == subs[1..][i];
    }
  }

  /** `not` exchanges true and false and leaves unknown. */
  lemma NotMeans(c: Condition, facts: Facts, re: Regex)
    ensures Eval(Not(c), facts, re) == True <==> Eval(c, facts, re) == False
    ensures Eval(Not(c), facts, re) == False <==> Eval(c, facts, re) == True
  {
  }

  /** The fact is there and not null, with this value. */
  predicate Has(facts: Facts, f: string, v: Value) {
    f in facts && facts[f] == v && v != Null
  }

  /** A test is unknown exactly when its fact is missing or null, unless it asks just that; and what each
      operator answers otherwise. Order is between numbers only. */
  lemma TestMeans(f: string, operand: Operand, facts: Facts, re: Regex, op: Operator)
    ensures var t := Eval(Test(f, op, operand), facts, re); var missing := f !in facts || facts[f] == Null;
      && (t == Unknown <==> op != Exists && missing)
      && (op == Exists ==> (t == True <==> !missing))
      && (op == Eq ==> (t == True <==> operand.One? && Has(facts, f, operand.value)))
      && (op == Neq ==> (t == True <==> !missing && !(operand.One? && facts[f] == operand.value)))
      && (op == In ==> (t == True <==> operand.Many? && exists v :: v in operand.values && Has(facts, f, v)))
      && (op == Lt ==> (t == True <==> exists x, y :: Has(facts, f, Num(x)) && operand == One(Num(y)) && x < y))
      && (op == Lte ==> (t == True <==> exists x, y :: Has(facts, f, Num(x)) && operand == One(Num(y)) && x <= y))
      && (op == Gt ==> (t == True <==> exists x, y :: Has(facts, f, Num(x)) && operand == One(Num(y)) && x > y))
      && (op == Gte ==> (t == True <==> exists x, y :: Has(facts, f, Num(x)) && operand == One(Num(y)) && x >= y))
      && (op == Matches ==>
            (t == True <==> exists x, y :: Has(facts, f, Str(x)) && operand == One(Str(y)) && re(y, x)))
  {
    var c := Test(f, op, operand);
    assert Eval(c, facts, re) == EvalTest(c, facts, re);
    if Present(facts, f) {
      var v := facts[f];
      assert v.Num? ==> Has(facts, f, Num(v.n));
      assert v.Str? ==> Has(facts, f, Str(v.s));
      assert Has(facts, f, v);
    }
  }

  // ---------------------------------------------------------------- the facts found missing

  /** The missing facts that evaluation comes to: of `all` up to the first false part, of `any` up to the
      first true one. */
  ghost function Asked(c: Condition, facts: Facts, re: Regex): set<string>
    decreases c
  {
    match c
    case All(subs) => AskedUntil(subs, facts, re, False)
    case Any(subs) => AskedUntil(subs, facts, re, True)
    case Not(sub) => Asked(sub, facts, re)
    case Test(fact, op, _) => if op != Exists && (fact !in facts || facts[fact] == Null) then {fact} else {}
  }

  ghost function AskedUntil(subs: seq<Condition>, facts: Facts, re: Regex, stop: Tri): set<string>
    decreases subs
  {
    set i, f | 0 <= i < |subs| && f in Asked(subs[i], facts, re)
      && (forall j :: 0 <= j < i ==> Eval(subs[j], facts, re) != stop) :: f
  }

  ghost predicate AskedAt(subs: seq<Condition>, facts: Facts, re: Regex, stop: Tri, i: nat, f: string) {
    i < |subs| && f in Asked(subs[i], facts, re) && forall j :: 0 <= j < i ==> Eval(subs[j], facts, re) != stop
  }

  lemma AskedPrefix(subs: seq<Condition>, facts: Facts, re: Regex, stop: Tri, n: nat, i: nat, f: string)
    requires i < n <= |subs|
    ensures AskedAt(subs[..n], facts, re, stop, i, f) <==> AskedAt(subs, facts, re, stop, i, f)
  {
    hide Eval, Asked;
    assert forall j :: 0 <= j <= i ==> subs[..n][j] == subs[j];
  }

  lemma AskedMember(subs: seq<Condition>, facts: Facts, re: Regex, stop: Tri, f: string)
    ensures f in AskedUntil(subs, facts, re, stop) <==> exists i: nat :: AskedAt(subs, facts, re, stop, i, f)
  {
    hide Eval, Asked;
    if f in AskedUntil(subs, facts, re, stop) {
      var i: nat :|
        i < |subs| && f in Asked(subs[i], facts, re) && forall j :: 0 <= j < i ==> Eval(subs[j], facts, re) != stop;
      assert AskedAt(subs, facts, re, stop, i, f);
    }
  }

  lemma AskedFirst(subs: seq<Condition>, facts: Facts, re: Regex, stop: Tri, n: nat)
    requires n < |subs|
    requires forall j :: 0 <= j < n ==> Eval(subs[j], facts, re) != stop
    ensures AskedUntil(subs[..n + 1], facts, re, stop)
         == AskedUntil(subs[..n], facts, re, stop) + Asked(subs[n], facts, re)
    ensures Eval(subs[n], facts, re) == stop ==>
      AskedUntil(subs, facts, re, stop) == AskedUntil(subs[..n + 1], facts, re, stop)
  {
    hide Eval, Asked, AskedUntil;
    var less, more := subs[..n], subs[..n + 1];
    forall f
      ensures f in AskedUntil(more, facts, re, stop) <==>
        f in AskedUntil(less, facts, re, stop) || f in Asked(subs[n], facts, re)
      ensures Eval(subs[n], facts, re) == stop ==>
        (f in AskedUntil(subs, facts, re, stop) <==> f in AskedUntil(more, facts, re, stop))
    {
      AskedMember(less, facts, re, stop, f);
      AskedMember(more, facts, re, stop, f);
      AskedMember(subs, facts, re, stop, f);
      forall i: nat | i <= n
        ensures AskedAt(more, facts, re, stop, i, f) <==> AskedAt(subs, facts, re, stop, i, f)
      {
        AskedPrefix(subs, facts, re, stop, n + 1, i, f);
      }
      forall i: nat | i < n
        ensures AskedAt(less, facts, re, stop, i, f) <==> AskedAt(more, facts, re, stop, i, f)
      {
        AskedPrefix(subs, facts, re, stop, n, i, f);
      }
      assert AskedAt(more, facts, re, stop, n, f) <==> f in Asked(subs[n], facts, re);
    }
  }

  /** Whatever is asked for is missing, and an unknown answer asked for something. */
  lemma {:induction false} AskedMissing(c: Condition, facts: Facts, re: Regex)
    ensures forall f :: f in Asked(c, facts, re) ==> f !in facts || facts[f] == Null
    ensures Eval(c, facts, re) == Unknown ==> Asked(c, facts, re) != {}
    decreases c
  {
    hide Compare;
    match c
    case Not(sub) => AskedMissing(sub, facts, re);
    case Test(_, _, _) =>
    case All(subs) =>
      forall i | 0 <= i < |subs|
        ensures forall f :: f in Asked(subs[i], facts, re) ==> f !in facts || facts[f] == Null
        ensures Eval(subs[i], facts, re) == Unknown ==> Asked(subs[i], facts, re) != {}
      {
        AskedMissing(subs[i], facts, re);
      }
      AllMeans(subs, facts, re);
      if Eval(c, facts, re) == Unknown {
        UnknownPart(subs, facts, re, False);
      }
    case Any(subs) =>
      forall i | 0 <= i < |subs|
        ensures forall f :: f in Asked(subs[i], facts, re) ==> f !in facts || facts[f] == Null
        ensures Eval(subs[i], facts, re) == Unknown ==> Asked(subs[i], facts, re) != {}
      {
        AskedMissing(subs[i], facts, re);
      }
      AnyMeans(subs, facts, re);
      if Eval(c, facts, re) == Unknown {
        UnknownPart(subs, facts, re, True);
      }
  }

  /** If no part stops the evaluation and some part is unknown, what that part asked for is asked for. */
  lemma UnknownPart(subs: seq<Condition>, facts: Facts, re: Regex, stop: Tri)
    requires forall i :: 0 <= i < |subs| && Eval(subs[i], facts, re) == Unknown ==> Asked(subs[i], facts, re) != {}
    requires forall i :: 0 <= i < |subs| ==> Eval(subs[i], facts, re) != stop
    ensures (exists i :: 0 <= i < |subs| && Eval(subs[i], facts, re) == Unknown) ==>
      AskedUntil(subs, facts, re, stop) != {}
  {
    hide Eval, Asked;
    if i :| 0 <= i < |subs| && Eval(subs[i], facts, re) == Unknown {
      var f :| f in Asked(subs[i], facts, re);
      assert f in AskedUntil(subs, facts, re, stop);
    }
  }

  /** The recursion of the source, with its early returns and the set it fills with unknown facts. */
  method EvaluateCondition(c: Condition, facts: Facts, re: Regex, unknowns0: set<string>)
    returns (v: Tri, unknowns: set<string>)
    ensures v == Eval(c, facts, re) && unknowns == unknowns0 + Asked(c, facts, re)
    decreases c
  {
    hide Compare, EvalAll, EvalAny, AskedUntil;
    unknowns := unknowns0;
    match c
    case All(subs) => v, unknowns := EvaluateAll(subs, facts, re, unknowns);
    case Any(subs) => v, unknowns := EvaluateAny(subs, facts, re, unknowns);
    case Not(sub) =>
      var t;
      t, unknowns := EvaluateCondition(sub, facts, re, unknowns);
      v := Negate(t);
    case Test(fact, op, operand) =>
      if op != Exists && !Present(facts, fact) {
        unknowns := unknowns + {fact};
      }
      v := EvalTest(c, facts, re);
  }

  method EvaluateAll(subs: seq<Condition>, facts: Facts, re: Regex, unknowns0: set<string>)
    returns (v: Tri, unknowns: set<string>)
    ensures v == EvalAll(subs, facts, re) && unknowns == unknowns0 + AskedUntil(subs, facts, re, False)
    decreases subs
  {
    hide Eval, Asked, AskedUntil;
    unknowns := unknowns0;
    var sawUnknown := false;
    AskedNone(facts, re, False);
    for i := 0 to |subs|
      invariant EvalAll(subs, facts, re) == And(if sawUnknown then Unknown else True, EvalAll(subs[i..], facts, re))
      invariant unknowns == unknowns0 + AskedUntil(subs[..i], facts, re, False)
      invariant forall j :: 0 <= j < i ==> Eval(subs[j], facts, re) != False
    {
      assert subs[i..][1..] == subs[i + 1..];
      AskedFirst(subs, facts, re, False, i);
      var t;
      t, unknowns := EvaluateCondition(subs[i], facts, re, unknowns);
      if t == False {
        return False, unknowns;
      }
      if t == Unknown {
        sawUnknown := true;
      }
    }
    assert subs[..|subs|] == subs;
    v := if sawUnknown then Unknown else True;
  }

  method EvaluateAny(subs: seq<Condition>, facts: Facts, re: Regex, unknowns0: set<string>)
    returns (v: Tri, unknowns: set<string>)
    ensures v == EvalAny(subs, facts, re) && unknowns == unknowns0 + AskedUntil(subs, facts, re, True)
    decreases subs
  {
    hide Eval, Asked, AskedUntil;
    unknowns := unknowns0;
    var sawUnknown := false;
    AskedNone(facts, re, True);
    for i := 0 to |subs|
      invariant EvalAny(subs, facts, re) == Or(if sawUnknown then Unknown else False, EvalAny(subs[i..], facts, re))
      invariant unknowns == unknowns0 + AskedUntil(subs[..i], facts, re, True)
      invariant forall j :: 0 <= j < i ==> Eval(subs[j], facts, re) != True
    {
      assert subs[i..][1..] == subs[i + 1..];
      AskedFirst(subs, facts, re, True, i);
      var t;
      t, unknowns := EvaluateCondition(subs[i], facts, re, unknowns);
      if t == True {
        return True, unknowns;
      }
      if t == Unknown {
        sawUnknown := true;
      }
    }
    assert subs[..|subs|] == subs;
    v := if sawUnknown then Unknown else False;
  }

  lemma AskedNone(facts: Facts, re: Regex, stop: Tri)
    ensures forall subs: seq<Condition> :: subs[..0] == [] && AskedUntil([], facts, re, stop) == {}
  {
  }

  // ---------------------------------------------------------------- filling in facts

  /** `full` agrees with every fact of `part` that is there; missing and null facts may be filled in. */
  ghost predicate Completes(part: Facts, full: Facts) {
    forall f :: Present(part, f) ==> f in full && full[f] == part[f]
  }

  /** Every `exists` in the condition asks for a fact that is there. */
  ghost predicate ExistsKnown(c: Condition, part: Facts)
    decreases c
  {
    match c
    case Not(sub) => ExistsKnown(sub, part)
    case Test(fact, op, _) => op != Exists || Present(part, fact)
    case _ => AllExistsKnown(c.subs, part)
  }

  ghost predicate AllExistsKnown(subs: seq<Condition>, part: Facts)
    decreases subs
  {
    subs == [] || (ExistsKnown(subs[0], part) && AllExistsKnown(subs[1..], part))
  }

  /** A definite answer stays. */
  ghost predicate Refines(t: Tri, t': Tri) {
    t == Unknown || t' == t
  }

  /** A definite answer survives any filling in of missing facts, if `exists` asks for none of them. */
  lemma {:induction false} DefiniteSurvives(c: Condition, part: Facts, full: Facts, re: Regex)
    requires Completes(part, full) && ExistsKnown(c, part)
    ensures Refines(Eval(c, part, re), Eval(c, full, re))
    decreases c
  {
    match c
    case All(subs) => SubsSurvive(subs, part, full, re);
    case Any(subs) => SubsSurvive(subs, part, full, re);
    case Not(sub) => DefiniteSurvives(sub, part, full, re);
    case Test(fact, _, _) => assert Present(part, fact) ==> Present(full, fact);
  }

  lemma {:induction false} SubsSurvive(subs: seq<Condition>, part: Facts, full: Facts, re: Regex)
    requires Completes(part, full) && AllExistsKnown(subs, part)
    ensures Refines(EvalAll(subs, part, re), EvalAll(subs, full, re))
    ensures Refines(EvalAny(subs, part, re), EvalAny(subs, full, re))
    decreases subs
  {
    if subs != [] {
      DefiniteSurvives(subs[0], part, full, re);
      SubsSurvive(subs[1..], part, full, re);
    }
  }

  /** At a single test this is exact: its answer survives every completion unless it asks whether
      a fact exists that is missing. */
  lemma TestSurvivesExact(c: Condition, part: Facts, re: Regex)
    requires c.Test?
    ensures (forall full :: Completes(part, full) ==> Refines(Eval(c, part, re), Eval(c, full, re)))
       <==> c.op != Exists || Present(part, c.fact)
  {
    if c.op != Exists || Present(part, c.fact) {
      forall full | Completes(part, full)
        ensures Refines(Eval(c, part, re), Eval(c, full, re))
      {
        DefiniteSurvives(c, part, full, re);
      }
    } else {
      ExistsIsNotConservative(c, part, Flag(true), re);
    }
  }

  /** `exists` reads a missing fact as a definite no, which any value for it reverses. */
  lemma ExistsIsNotConservative(c: Condition, part: Facts, v: Value, re: Regex)
    requires c.Test? && c.op == Exists && !Present(part, c.fact) && v != Null
    ensures var full := part[c.fact := v];
      Completes(part, full) && Eval(c, part, re) == False && Eval(c, full, re) == True
  {
    var full := part[c.fact := v];
    assert Eval(c, full, re) == EvalTest(c, full, re);
  }

  // ---------------------------------------------------------------- policies

  datatype Decision = Allow | AuditOnly | Defer | RequireApproval | Quarantine | Deny

  function Severity(d: Decision): nat {
    match d
    case Allow => 0 case AuditOnly => 1 case Defer => 2
    case RequireApproval => 3 case Quarantine => 4 case Deny => 5
  }

  datatype Rule = Rule(id: string, when: Condition, decision: Decision, reason: string, onUnknown: Option<Decision>)

  datatype Document = Document(default: Decision, onUnknown: Option<Decision>, rules: seq<Rule>)

  /** `rule.on_unknown ?? policy.on_unknown ?? "defer"`. */
  function OnUnknown(p: Document, r: Rule): Decision {
    if r.onUnknown.Some? then r.onUnknown.value
    else if p.onUnknown.Some? then p.onUnknown.value
    else Defer
  }

  /** What a rule contributes under the given facts, if anything. */
  function Contribution(p: Document, r: Rule, facts: Facts, re: Regex): Option<Decision> {
    match Eval(r.when, facts, re)
    case True => Some(r.decision)
    case Unknown => Some(OnUnknown(p, r))
    case False => None
  }

  datatype Matched = Matched(id: string, unknown: bool, decision: Decision, reason: string, missing: set<string>)

  /** What the record says about a rule that contributes. */
  ghost predicate Reports(p: Document, r: Rule, facts: Facts, re: Regex, m: Matched) {
    && m.id == r.id
    && Contribution(p, r, facts, re) == Some(m.decision)
    && (m.unknown <==> Eval(r.when, facts, re) == Unknown)
    && m.reason == (if m.unknown then r.reason + ":unknown_input" else r.reason)
    && m.missing == if m.unknown then Asked(r.when, facts, re) else {}
  }

  /** One entry per contributing rule, in the order of the rules. */
  ghost predicate ReportsAll(p: Document, rules: seq<Rule>, facts: Facts, re: Regex, matched: seq<Matched>)
    decreases |rules|
  {
    if rules == [] then matched == []
    else
      var init, last := rules[..|rules| - 1], rules[|rules| - 1];
      if Contribution(p, last, facts, re).None? then ReportsAll(p, init, facts, re, matched)
      else
        && matched != [] && Reports(p, last, facts, re, matched[|matched| - 1])
        && ReportsAll(p, init, facts, re, matched[..|matched| - 1])
  }

  /** The decision that follows from a list of contributions. */
  function Strictest(ds: seq<Decision>, acc: Decision): Decision {
    if ds == [] then acc else Strictest(ds[1..], if Severity(ds[0]) > Severity(acc) then ds[0] else acc)
  }

  function Contributions(p: Document, rules: seq<Rule>, facts: Facts, re: Regex): seq<Decision>
    decreases |rules|
  {
    if rules == [] then []
    else
      var init := Contributions(p, rules[..|rules| - 1], facts, re);
      match Contribution(p, rules[|rules| - 1], facts, re)
      case Some(d) => init + [d]
      case None => init
  }

  function Decide(p: Document, facts: Facts, re: Regex): Decision {
    var ds := Contributions(p, p.rules, facts, re);
    if ds == [] then p.default else Strictest(ds, Allow)
  }

  /** evaluatePolicy: one pass over the rules, the fold, and the reason codes. */
  method EvaluatePolicy(p: Document, facts: Facts, re: Regex)
    returns (decision: Decision, matched: seq<Matched>, reasons: seq<string>)
    ensures decision == Decide(p, facts, re)
    ensures ReportsAll(p, p.rules, facts, re, matched)
    ensures if matched == [] then reasons == ["no_rule_matched:default"]
            else |reasons| == |matched| && forall i :: 0 <= i < |matched| ==>
              reasons[i] == matched[i].id + ":" + matched[i].reason
  {
    hide ReportsAll, Contributions;
    matched := MatchRules(p, facts, re);
    ghost var all := Contributions(p, p.rules, facts, re);
    ReportsDecisions(p, p.rules, facts, re, matched);
    if |matched| == 0 {
      return p.default, matched, ["no_rule_matched:default"];
    }
    decision := Allow;
    for i := 0 to |matched|
      invariant Strictest(all, Allow) == Strictest(all[i..], decision)
    {
      assert all[i..][1..] == all[i + 1..];
      if Severity(matched[i].decision) > Severity(decision) {
        decision := matched[i].decision;
      }
    }
    reasons := seq(|matched|, i requires 0 <= i < |matched| => matched[i].id + ":" + matched[i].reason);
  }

  function DecisionsOf(matched: seq<Matched>): seq<Decision> {
    seq(|matched|, i requires 0 <= i < |matched| => matched[i].decision)
  }

  /** The decisions in the record are the rules' contributions. */
  lemma {:induction false} ReportsDecisions(p: Document, rules: seq<Rule>, facts: Facts, re: Regex,
      matched: seq<Matched>)
    requires ReportsAll(p, rules, facts, re, matched)
    ensures DecisionsOf(matched) == Contributions(p, rules, facts, re)
    decreases |rules|
  {
    hide Contribution;
    if rules != [] {
      var init, last := rules[..|rules| - 1], rules[|rules| - 1];
      if Contribution(p, last, facts, re).None? {
        ReportsDecisions(p, init, facts, re, matched);
      } else {
        var front, m := matched[..|matched| - 1], matched[|matched| - 1];
        ReportsDecisions(p, init, facts, re, front);
        assert DecisionsOf(matched) == DecisionsOf(front) + [m.decision];
      }
    }
  }

  lemma ReportsSnoc(p: Document, rules: seq<Rule>, facts: Facts, re: Regex, i: nat, matched: seq<Matched>, m: Matched)
    requires i < |rules| && ReportsAll(p, rules[..i], facts, re, matched)
    ensures Contribution(p, rules[i], facts, re).None? ==> ReportsAll(p, rules[..i + 1], facts, re, matched)
    ensures Reports(p, rules[i], facts, re, m) ==> ReportsAll(p, rules[..i + 1], facts, re, matched + [m])
  {
    hide Contribution;
    assert rules[..i + 1][..i] == rules[..i];
    assert (matched + [m])[..|matched|] == matched;
  }

  method MatchRules(p: Document, facts: Facts, re: Regex) returns (matched: seq<Matched>)
    ensures ReportsAll(p, p.rules, facts, re, matched)
  {
    hide Eval, OnUnknown, ReportsAll;
    matched := [];
    NothingMatched(p, facts, re);
    for i := 0 to |p.rules|
      invariant ReportsAll(p, p.rules[..i], facts, re, matched)
    {
      var rule := p.rules[i];
      var v, unknowns := EvaluateCondition(rule.when, facts, re, {});
      var m := if v == Unknown then Matched(rule.id, true, OnUnknown(p, rule), rule.reason + ":unknown_input", unknowns)
               else Matched(rule.id, false, rule.decision, rule.reason, {});
      ReportsSnoc(p, p.rules, facts, re, i, matched, m);
      if v != False {
        matched := matched + [m];
      }
    }
    assert p.rules[..|p.rules|] == p.rules;
  }

  lemma NothingMatched(p: Document, facts: Facts, re: Regex)
    ensures ReportsAll(p, [], facts, re, [])
  {
  }

  // ---------------------------------------------------------------- what the decision depends on

  lemma {:induction false} StrictestIsMax(ds: seq<Decision>, acc: Decision)
    ensures var d := Strictest(ds, acc);
      && (d == acc || d in ds) && Severity(acc) <= Severity(d)
      && forall x :: x in ds ==> Severity(x) <= Severity(d)
  {
    if ds != [] {
      StrictestIsMax(ds[1..], if Severity(ds[0]) > Severity(acc) then ds[0] else acc);
      assert ds == [ds[0]] + ds[1..];
    }
  }

  lemma {:induction false} ContributionsMembers(p: Document, rules: seq<Rule>, facts: Facts, re: Regex, d: Decision)
    ensures d in Contributions(p, rules, facts, re)
       <==> exists i :: 0 <= i < |rules| && Contribution(p, rules[i], facts, re) == Some(d)
    decreases |rules|
  {
    hide Contribution;
    if rules != [] {
      var last := |rules| - 1;
      ContributionsMembers(p, rules[..last], facts, re, d);
      assert forall i :: 0 <= i < last ==> rules[i] == rules[..last][i];
      if i :| 0 <= i < last && Contribution(p, rules[..last][i], facts, re) == Some(d) {
        assert Contribution(p, rules[i], facts, re) == Some(d);
      }
    }
  }

  /** The decision is the severest contribution, or the default when there is none. */
  ghost predicate IsDecision(p: Document, facts: Facts, re: Regex, d: Decision) {
    if forall r :: r in p.rules ==> Contribution(p, r, facts, re).None? then d == p.default
    else
      && (exists r :: r in p.rules && Contribution(p, r, facts, re) == Some(d))
      && (forall r :: r in p.rules && Contribution(p, r, facts, re).Some? ==>
        Severity(Contribution(p, r, facts, re).value) <= Severity(d))
  }

  lemma DecideIsSeverest(p: Document, facts: Facts, re: Regex)
    ensures IsDecision(p, facts, re, Decide(p, facts, re))
  {
    hide Contribution, Contributions, Strictest;
    var ds := Contributions(p, p.rules, facts, re);
    StrictestIsMax(ds, Allow);
    forall r | r in p.rules && Contribution(p, r, facts, re).Some?
      ensures Contribution(p, r, facts, re).value in ds
    {
      ContributionsMembers(p, p.rules, facts, re, Contribution(p, r, facts, re).value);
    }
    if ds != [] {
      var d := Strictest(ds, Allow);
      assert ds[0] in ds && (d == Allow ==> ds[0] == Allow);
      ContributionsMembers(p, p.rules, facts, re, d);
      var i :| 0 <= i < |p.rules| && Contribution(p, p.rules[i], facts, re) == Some(d);
      assert p.rules[i] in p.rules;
    }
  }

  /** The rule's answer, spelled out: its decision where its condition holds; where that is unknown its own
      on_unknown, else the policy's, else `defer`. */
  ghost predicate Gives(p: Document, r: Rule, facts: Facts, re: Regex, d: Decision) {
    match Eval(r.when, facts, re)
    case False => false
    case True => d == r.decision
    case Unknown =>
      || r.onUnknown == Some(d)
      || (r.onUnknown.None? && p.onUnknown == Some(d))
      || (r.onUnknown.None? && p.onUnknown.None? && d == Defer)
  }

  ghost predicate SomeGives(p: Document, facts: Facts, re: Regex, d: Decision) {
    exists r :: r in p.rules && Gives(p, r, facts, re, d)
  }

  /** The most restrictive answer decides, in the order deny, quarantine, require_approval, defer, audit_only,
      allow; without any answer the default does. */
  lemma DecideLadder(p: Document, facts: Facts, re: Regex)
    ensures Decide(p, facts, re) ==
      if SomeGives(p, facts, re, Deny) then Deny
      else if SomeGives(p, facts, re, Quarantine) then Quarantine
      else if SomeGives(p, facts, re, RequireApproval) then RequireApproval
      else if SomeGives(p, facts, re, Defer) then Defer
      else if SomeGives(p, facts, re, AuditOnly) then AuditOnly
      else if SomeGives(p, facts, re, Allow) then Allow
      else p.default
  {
    hide Decide, Eval;
    DecideIsSeverest(p, facts, re);
    forall r, d
      ensures Gives(p, r, facts, re, d) <==> Contribution(p, r, facts, re) == Some(d)
    {
    }
    forall r | r in p.rules && Contribution(p, r, facts, re).Some?
      ensures SomeGives(p, facts, re, Contribution(p, r, facts, re).value)
    {
    }
  }

  /** Rule order never changes the decision. */
  lemma OrderIrrelevant(p: Document, rules: seq<Rule>, facts: Facts, re: Regex)
    requires multiset(rules) == multiset(p.rules)
    ensures Decide(p.(rules := rules), facts, re) == Decide(p, facts, re)
  {
    hide Decide;
    var q := p.(rules := rules);
    DecideIsSeverest(p, facts, re);
    DecideIsSeverest(q, facts, re);
    forall r
      ensures (r in rules <==> r in p.rules) && Contribution(q, r, facts, re) == Contribution(p, r, facts, re)
    {
      assert r in rules <==> r in multiset(rules);
    }
  }

  /** Every effective on_unknown is at least as severe as its rule's decision and the default. */
  ghost predicate Cautious(p: Document) {
    forall r :: r in p.rules ==>
      Severity(OnUnknown(p, r)) >= Severity(r.decision) && Severity(OnUnknown(p, r)) >= Severity(p.default)
  }

  ghost predicate PolicyExistsKnown(p: Document, part: Facts) {
    forall r :: r in p.rules ==> ExistsKnown(r.when, part)
  }

  /** Under a cautious policy, missing facts never make the decision milder. */
  lemma UnknownIsConservative(p: Document, part: Facts, full: Facts, re: Regex)
    requires Completes(part, full) && PolicyExistsKnown(p, part) && Cautious(p)
    ensures Severity(Decide(p, part, re)) >= Severity(Decide(p, full, re))
  {
    hide Decide, Eval;
    DecideIsSeverest(p, part, re);
    DecideIsSeverest(p, full, re);
    forall r | r in p.rules
      ensures Refines(Eval(r.when, part, re), Eval(r.when, full, re))
    {
      DefiniteSurvives(r.when, part, full, re);
    }
  }

  /** The answers the authorization layer gives: allow and audit_only permit, and nothing else. */
  predicate Permits(d: Decision) {
    d == Allow || d == AuditOnly
  }

  /** With on_unknown at `defer` or stricter, as by default, a permit given on partial facts is the
      very decision on any completion. */
  lemma PermitSurvives(p: Document, part: Facts, full: Facts, re: Regex)
    requires Completes(part, full) && PolicyExistsKnown(p, part)
    requires forall r :: r in p.rules ==> Severity(OnUnknown(p, r)) >= 2
    requires Permits(Decide(p, part, re))
    ensures Decide(p, full, re) == Decide(p, part, re)
  {
    hide Decide, Eval;
    DecideIsSeverest(p, part, re);
    DecideIsSeverest(p, full, re);
    forall r | r in p.rules
      ensures Contribution(p, r, full, re) == Contribution(p, r, part, re)
    {
      DefiniteSurvives(r.when, part, full, re);
    }
  }
}
