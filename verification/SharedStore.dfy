/**
  Gateways over a shared backend (src/authz/replay-shared.ts:41-94, 235-256): calls that send the
  backend's own statements, any number of them at once. Every such run is a run of the gateway
  over its abstract store, so what is proved there holds here.
 */
module SharedStore {
  import opened Basics
  import opened Decision
  import Delegation
  import opened Gateway
  import NonceStore

  datatype Backend = Backend(store: Store, dynamo: bool)

  /** The store as the backend keeps it: DynamoDB rounds the time to live up to whole seconds. */
  function Kept(b: Backend): (p: Store)
    requires b.store.ttl.Some?
    ensures p.ttl.Some? && p.ttl.value >= b.store.ttl.value
  {
    if b.dynamo then b.store.(ttl := Some(1000 * NonceStore.CeilSeconds(b.store.ttl.value))) else b.store
  }

  /** The table of the backend, and the calls waiting for it. */
  datatype World = World(table: NonceStore.Table, calls: seq<Call>)

  datatype Act =
    | Elapse(ms: nat)
    | Front(event: Event)                                     // a step of a call that needs no statement
    | Decide(call: nat, statement: NonceStore.Statement)      // the statement that settles who wins
    | Reclaim(statement: NonceStore.Statement)                // an expired row is removed

  /** The calls as the gateway's steps see them; these steps do not look at the store. */
  function Desk(w: World): System {
    System(w.table.clock, map[], w.calls)
  }

  predicate NeedsNoStatement(e: Event) {
    e.Invoke? || e.Answer? || e.GiveUp? || e.ToolEnds?
  }

  /** The base from which a winner's time to live counts. */
  function BaseOf(w: World, st: NonceStore.Statement): int {
    match st
    case PgInsert(_, started) => started
    case DynamoPut(_, client) => client
    case _ => w.table.clock
  }

  predicate Settles(b: Backend, w: World, c: Call, st: NonceStore.Statement) {
    && (if b.dynamo then st.DynamoPut? else st.PgInsert? || st.RedisSet?)
    && st.key == KeyOf(b.store, c) && c.at.now <= BaseOf(w, st)
  }

  predicate CanAct(b: Backend, w: World, a: Act) {
    match a
    case Elapse(_) => true
    case Front(e) => NeedsNoStatement(e) && Enabled(b.store, Desk(w), e)
    case Decide(i, st) =>
      && i < |w.calls| && !w.calls[i].inserted && w.calls[i].at.now <= w.table.clock
      && (w.calls[i].phase == Consuming || w.calls[i].phase == Rejected(StoreUnavailable))
      && Settles(b, w, w.calls[i], st) && NonceStore.Enabled(w.table, st)
    case Reclaim(st) => (if b.dynamo then st.DynamoSweep? else st.PgDelete?) && NonceStore.Enabled(w.table, st)
  }

  /** The call learns from the backend's answer whether a row was written. */
  function Do(b: Backend, w: World, a: Act): World
    requires b.store.ttl.Some? && CanAct(b, w, a)
  {
    var ttl := b.store.ttl.value;
    match a
    case Elapse(ms) => w.(table := NonceStore.Execute(ttl, w.table, NonceStore.Tick(ms)))
    case Front(e) => w.(calls := Step(b.store, Desk(w), e).calls)
    case Reclaim(st) => w.(table := NonceStore.Execute(ttl, w.table, st))
    case Decide(i, st) =>
      var table := NonceStore.Execute(ttl, w.table, st);
      var n := |w.table.wins|;
      var won := if |table.wins| > n then Some(Win(w.table.clock, table.wins[n].base)) else None;
      World(table, w.calls[i := w.calls[i].(inserted := true, won := won)])
  }

  // ---------------------------------------------------------------- simulation

  /** The abstract store keeps, for each row, the time from which its expiry was computed. */
  ghost predicate Shows(b: Backend, w: World, s: System)
    requires b.store.ttl.Some?
  {
    && s.clock == w.table.clock && s.calls == w.calls && s.store.Keys == w.table.rows.Keys
    && forall k :: k in s.store ==> w.table.rows[k] == NonceStore.ExpiryOf(b.dynamo, b.store.ttl.value, s.store[k])
  }

  /** No call has a win before the store performed its insert, nor comes from the future. */
  ghost predicate Sound(w: World) {
    forall i :: 0 <= i < |w.calls| ==>
      (!w.calls[i].inserted ==> w.calls[i].won.None?) && w.calls[i].at.now <= w.table.clock
  }

  lemma ExpiredIsFree(b: Backend, w: World, s: System, key: string)
    requires b.store.ttl.Some? && Shows(b, w, s)
    requires key in w.table.rows ==> w.table.rows[key] < if b.dynamo then w.table.clock / 1000 else w.table.clock
    ensures Free(Kept(b), s, key)
  {
    if b.dynamo && key in s.store {
      SecondsAreWhole(s.store[key], NonceStore.CeilSeconds(b.store.ttl.value), s.clock);
    }
  }

  lemma SecondsAreWhole(base: int, seconds: nat, now: int)
    requires base / 1000 + seconds < now / 1000
    ensures now > base + 1000 * seconds
  {
  }

  lemma DecideSimulated(b: Backend, w: World, s: System, i: nat, st: NonceStore.Statement) returns (e: Event)
    requires b.store.ttl.Some? && CanAct(b, w, Decide(i, st)) && Shows(b, w, s) && Sound(w)
    ensures Enabled(Kept(b), s, e) && Shows(b, Do(b, w, Decide(i, st)), Step(Kept(b), s, e))
  {
    hide NonceStore.ExpiryOf, NonceStore.CeilSeconds;
    var key, base := KeyOf(b.store, w.calls[i]), BaseOf(w, st);
    assert KeyOf(Kept(b), w.calls[i]) == key;
    var free := key !in w.table.rows
      || if b.dynamo then w.table.rows[key] < base / 1000 else !st.PgInsert? && w.table.rows[key] < base;
    if free {
      assert b.dynamo ==> base / 1000 <= w.table.clock / 1000;
      ExpiredIsFree(b, w, s, key);
    }
    e := Insert(i, base, free);
  }

  lemma ReclaimSimulated(b: Backend, w: World, s: System, st: NonceStore.Statement) returns (e: Event)
    requires b.store.ttl.Some? && CanAct(b, w, Reclaim(st)) && Shows(b, w, s)
    ensures Enabled(Kept(b), s, e) && Shows(b, Do(b, w, Reclaim(st)), Step(Kept(b), s, e))
  {
    hide NonceStore.ExpiryOf, NonceStore.CeilSeconds;
    var key := st.key;
    if key in w.table.rows && w.table.rows[key] < if b.dynamo then w.table.clock / 1000 else st.started {
      ExpiredIsFree(b, w, s, key);
      e := Forget(key);
    } else {
      e := Tick(0);
    }
  }

  /** Whatever the gateways and the backend do next, the abstract system can do too. */
  lemma ActSimulated(b: Backend, w: World, s: System, a: Act) returns (e: Event)
    requires b.store.ttl.Some? && CanAct(b, w, a) && Shows(b, w, s) && Sound(w)
    ensures Enabled(Kept(b), s, e) && Shows(b, Do(b, w, a), Step(Kept(b), s, e))
  {
    hide Admit, NonceStore.ExpiryOf, NonceStore.CeilSeconds;
    match a
    case Elapse(ms) => e := Tick(ms);
    case Front(event) => e := event;
    case Decide(i, st) => e := DecideSimulated(b, w, s, i, st);
    case Reclaim(st) => e := ReclaimSimulated(b, w, s, st);
  }

  lemma ActKeepsSound(b: Backend, w: World, a: Act)
    requires b.store.ttl.Some? && CanAct(b, w, a) && Sound(w)
    ensures Sound(Do(b, w, a))
  {
    hide Admit, NonceStore.ExpiryOf;
  }

  // ---------------------------------------------------------------- runs

  predicate IsHistory(b: Backend, w: World, acts: seq<Act>)
    requires b.store.ttl.Some?
    decreases |acts|
  {
    acts == [] || (CanAct(b, w, acts[0]) && IsHistory(b, Do(b, w, acts[0]), acts[1..]))
  }

  function After(b: Backend, w: World, acts: seq<Act>): World
    requires b.store.ttl.Some? && IsHistory(b, w, acts)
    decreases |acts|
  {
    if acts == [] then w else After(b, Do(b, w, acts[0]), acts[1..])
  }

  lemma {:induction false} HistorySimulated(b: Backend, w: World, s: System, acts: seq<Act>)
    returns (events: seq<Event>)
    requires b.store.ttl.Some? && IsHistory(b, w, acts) && Shows(b, w, s) && Sound(w)
    ensures IsRun(Kept(b), s, events) && Shows(b, After(b, w, acts), RunFrom(Kept(b), s, events))
    decreases |acts|
  {
    hide Shows, Sound, CanAct, Do, Step, Enabled, Kept;
    if acts == [] {
      events := [];
    } else {
      var e := ActSimulated(b, w, s, acts[0]);
      ActKeepsSound(b, w, acts[0]);
      var rest := HistorySimulated(b, Do(b, w, acts[0]), Step(Kept(b), s, e), acts[1..]);
      events := RunCons(Kept(b), s, e, rest);
    }
  }

  const FRESH: World := World(NonceStore.EMPTY, [])

  /** Every interleaving of gateways, clients and statements is a run of the abstract system: its calls
      saw, won and ran exactly the same. */
  lemma HistoriesAreRuns(b: Backend, acts: seq<Act>) returns (events: seq<Event>)
    requires b.store.ttl.Some? && IsHistory(b, FRESH, acts)
    ensures IsRun(Kept(b), EMPTY, events) && RunFrom(Kept(b), EMPTY, events).calls == After(b, FRESH, acts).calls
  {
    hide IsHistory, After, IsRun, RunFrom, Kept;
    events := HistorySimulated(b, FRESH, EMPTY, acts);
  }

  // ---------------------------------------------------------------- the exact time to live

  /** No history has two calls for this request that both ran, with decisions not dated ahead. */
  ghost predicate OnceOver(b: Backend, r: Request)
    requires b.store.ttl.Some?
  {
    forall acts, i, j ::
      IsHistory(b, FRESH, acts) && 0 <= i < j < |After(b, FRESH, acts).calls| ==>
        var calls := After(b, FRESH, acts).calls;
        calls[i].inv.request == r && calls[j].inv.request == r && Timely(calls[i]) && Timely(calls[j]) ==>
          !(calls[i].ran && calls[j].ran)
  }

  /** Over PostgreSQL, Redis or DynamoDB a request never runs twice, if the time to live is at least its validity
      window, the minute a decision may predate it, and the store timeout together. */
  lemma NeverTwice(b: Backend, r: Request)
    requires b.store.ttl.Some? && Kept(b).ttl.value >= r.expiresAt - r.issuedAt + SKEW + b.store.timeout
    ensures OnceOver(b, r)
  {
    hide IsHistory, After, IsRun, RunFrom, Kept;
    assert Kept(b).timeout == b.store.timeout by { KeptTimeout(b); }
    forall acts, i, j | IsHistory(b, FRESH, acts) && 0 <= i < j < |After(b, FRESH, acts).calls|
      ensures var calls := After(b, FRESH, acts).calls;
        calls[i].inv.request == r && calls[j].inv.request == r && Timely(calls[i]) && Timely(calls[j]) ==>
          !(calls[i].ran && calls[j].ran)
    {
      var calls := After(b, FRESH, acts).calls;
      if calls[i].inv.request == r && calls[j].inv.request == r && Timely(calls[i]) && Timely(calls[j]) {
        var events := HistoriesAreRuns(b, acts);
        WindowPlusTimeoutIsEnough(Kept(b), events, i, j);
      }
    }
  }

  lemma KeptTimeout(b: Backend)
    requires b.store.ttl.Some?
    ensures Kept(b).timeout == b.store.timeout
  {
  }

  /** The statement a call sends: a put with the client's clock, or a set on the server's. */
  function Put(b: Backend, c: Call, now: int): NonceStore.Statement {
    if b.dynamo then NonceStore.DynamoPut(KeyOf(b.store, c), now) else NonceStore.RedisSet(KeyOf(b.store, c))
  }

  lemma HistoryNil(b: Backend, w: World)
    requires b.store.ttl.Some?
    ensures IsHistory(b, w, []) && After(b, w, []) == w
  {
  }

  lemma HistoryCons(b: Backend, w: World, a: Act, rest: seq<Act>) returns (acts: seq<Act>)
    requires b.store.ttl.Some? && CanAct(b, w, a) && IsHistory(b, Do(b, w, a), rest)
    ensures acts == [a] + rest && IsHistory(b, w, acts) && After(b, w, acts) == After(b, Do(b, w, a), rest)
  {
    hide Do, CanAct;
    acts := [a] + rest;
    assert acts[1..] == rest;
  }

  lemma {:induction false} HistoryAppend(b: Backend, w: World, acts: seq<Act>, more: seq<Act>)
    requires b.store.ttl.Some? && IsHistory(b, w, acts) && IsHistory(b, After(b, w, acts), more)
    ensures IsHistory(b, w, acts + more) && After(b, w, acts + more) == After(b, After(b, w, acts), more)
    decreases |acts|
  {
    hide Do, CanAct;
    if acts == [] {
      assert acts + more == more;
    } else {
      HistoryAppend(b, Do(b, w, acts[0]), acts[1..], more);
      assert (acts + more)[1..] == acts[1..] + more;
    }
  }

  /** A call that is admitted and finds its key free after waiting no longer than the timeout runs. */
  lemma CallRuns(b: Backend, w: World, g: Config, inv: Invocation, m: Moment, wait: nat) returns (acts: seq<Act>)
    requires b.store.ttl.Some? && m.now == w.table.clock && Admit(g, inv, m) == Admitted && wait <= b.store.timeout
    requires var key := b.store.keyOf(inv.request.audience, inv.request.nonce);
      key in w.table.rows ==> w.table.rows[key] < if b.dynamo then (m.now + wait) / 1000 else m.now + wait
    ensures IsHistory(b, w, acts)
    ensures var w', n := After(b, w, acts), |w.calls|;
      var key := b.store.keyOf(inv.request.audience, inv.request.nonce);
      && |w'.calls| == n + 1 && w'.calls[..n] == w.calls && RanAt(w'.calls[n], g, inv, m)
      && w'.table.clock == m.now + wait && key in w'.table.rows
      && w'.table.rows[key] == NonceStore.ExpiryOf(b.dynamo, b.store.ttl.value, m.now + wait)
  {
    hide Admit, IsHistory, After, NonceStore.ExpiryOf;
    var n, c := |w.calls|, Call(g, inv, m, Consuming, false, None, false);
    var invoke := Front(Invoke(g, inv, m.revoked, m.observed));
    var put := Put(b, c, m.now + wait);
    var w1 := Do(b, w, invoke);
    assert w1.calls == w.calls + [c];
    var w2 := Do(b, w1, Elapse(wait));
    var w3 := Do(b, w2, Decide(n, put));
    var w4 := Do(b, w3, Front(Answer(n)));
    HistoryNil(b, w4);
    var a3 := HistoryCons(b, w3, Front(Answer(n)), []);
    var a2 := HistoryCons(b, w2, Decide(n, put), a3);
    var a1 := HistoryCons(b, w1, Elapse(wait), a2);
    acts := HistoryCons(b, w, invoke, a1);
    assert w4.calls[..n] == w.calls;
  }

  lemma Elapsed(b: Backend, w: World, ms: nat)
    requires b.store.ttl.Some?
    ensures IsHistory(b, w, [Elapse(ms)]) &&
      After(b, w, [Elapse(ms)]) == w.(table := w.table.(clock := w.table.clock + ms))
  {
    hide IsHistory, After;
    HistoryNil(b, Do(b, w, Elapse(ms)));
    var acts := HistoryCons(b, w, Elapse(ms), []);
    assert [Elapse(ms)] + [] == [Elapse(ms)];
  }

  /** The first call at the last millisecond of a second, and the second one once the key is over. */
  lemma ShortRunsTwice(b: Backend, g: Config, inv: Invocation, first: Moment, last: Moment)
    requires b.store.ttl.Some? && first.now == 999 <= last.now
    requires Kept(b).ttl.value < last.now - first.now + b.store.timeout
    requires Admit(g, inv, first) == Admitted && Admit(g, inv, last) == Admitted
    ensures exists acts ::
      && IsHistory(b, FRESH, acts)
      && var calls := After(b, FRESH, acts).calls;
         |calls| == 2 && RanAt(calls[0], g, inv, first) && RanAt(calls[1], g, inv, last)
  {
    hide Admit, IsHistory, After, Kept, NonceStore.ExpiryOf;
    var span := last.now - first.now;
    var wait := if Kept(b).ttl.value < span then 0 else Kept(b).ttl.value - span + 1;
    var key := b.store.keyOf(inv.request.audience, inv.request.nonce);
    Elapsed(b, FRESH, 999);
    var w1 := After(b, FRESH, [Elapse(999)]);
    var call1 := CallRuns(b, w1, g, inv, first, 0);
    HistoryAppend(b, FRESH, [Elapse(999)], call1);
    var w2 := After(b, w1, call1);
    Elapsed(b, w2, span);
    HistoryAppend(b, FRESH, [Elapse(999)] + call1, [Elapse(span)]);
    var w3 := After(b, w2, [Elapse(span)]);
    WonAgain(b, w3.table, key, last.now + wait);
    var call2 := CallRuns(b, w3, g, inv, last, wait);
    var acts := [Elapse(999)] + call1 + [Elapse(span)] + call2;
    HistoryAppend(b, FRESH, [Elapse(999)] + call1 + [Elapse(span)], call2);
    var calls := After(b, FRESH, acts).calls;
    assert calls[0] == calls[..1][0] && w3.calls[0] == w2.calls[0];
  }

  lemma WonAgain(b: Backend, t: NonceStore.Table, key: string, now: int)
    requires b.store.ttl.Some? && now > 999 + Kept(b).ttl.value
    requires key in t.rows && t.rows[key] == NonceStore.ExpiryOf(b.dynamo, b.store.ttl.value, 999)
    ensures t.rows[key] < if b.dynamo then now / 1000 else now
  {
  }

  /** The exact time to live of a backend, as it keeps it: safe for every request valid for at most `window` if
      and only if it is at least `window`, the minute a decision may predate its request, and the store timeout. */
  lemma BackendIsSafeExactly(b: Backend, window: nat, env: Env, sig: Delegation.SigOk)
    requires b.store.ttl.Some? && env.validPolicy(OPEN)
    ensures (forall r: Request :: r.expiresAt - r.issuedAt <= window ==> OnceOver(b, r))
       <==> Kept(b).ttl.value >= window + SKEW + b.store.timeout
  {
    hide Admit, SampleCall, SampleConfig, Kept, IsHistory, After;
    if Kept(b).ttl.value >= window + SKEW + b.store.timeout {
      forall r: Request | r.expiresAt - r.issuedAt <= window
        ensures OnceOver(b, r)
      {
        NeverTwice(b, r);
      }
    } else {
      var issued, end := 999 + SKEW, 999 + SKEW + window;
      var first, last := Moment(999, {}, None), Moment(end, {}, None);
      var g, inv := SampleConfig(env, sig), SampleCall(env, issued, end, 999);
      SampleTimes(env, issued, end, 999);
      SampleAdmitted(env, sig, issued, end, 999, first);
      SampleAdmitted(env, sig, issued, end, 999, last);
      ShortRunsTwice(b, g, inv, first, last);
      assert !OnceOver(b, inv.request);
    }
  }
}
