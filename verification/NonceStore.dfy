/**
  Replay stores (src/authz/replay.ts:25-39, src/authz/replay-shared.ts:62-94): insert-if-absent
  in memory, and the statements the shared backends send, at any interleaving of callers.
 */
module NonceStore {
  import opened Basics

  datatype ConsumeResult = Consumed | Replayed | Unavailable

  // ---------------------------------------------------------------- in memory

  const NUL: char := '\0'

  function KeyString(scope: string, nonce: string): string {
    scope + [NUL] + nonce
  }

  /** Scopes without a NUL keep their nonces apart. */
  lemma {:induction false} KeyStringInjective(s: string, n: string, s': string, n': string)
    requires NUL !in s && NUL !in s' && KeyString(s, n) == KeyString(s', n')
    ensures s == s' && n == n'
    decreases |s|
  {
    var k := KeyString(s, n);
    assert k[|s|] == NUL && k[|s'|] == NUL;
    assert forall i :: 0 <= i < |s| ==> k[i] == s[i];
    assert forall i :: 0 <= i < |s'| ==> k[i] == s'[i];
    assert |s| == |s'|;
    assert k[..|s|] == s && k[..|s'|] == s';
    assert k[|s| + 1..] == n && k[|s'| + 1..] == n';
  }

  class MemoryNonceStore {
    var used: map<string, string>

    constructor ()
      ensures used == map[]
    {
      used := map[];
    }

    /** First use of a key wins and is remembered for good. */
    method Consume(scope: string, nonce: string, requestId: string) returns (r: ConsumeResult)
      modifies this
      ensures r == if KeyString(scope, nonce) in old(used) then Replayed else Consumed
      ensures r == Consumed ==> used == old(used)[KeyString(scope, nonce) := requestId]
      ensures r == Replayed ==> used == old(used)
    {
      var k := KeyString(scope, nonce);
      if k in used {
        return Replayed;
      }
      used := used[k := requestId];
      return Consumed;
    }
  }

  // ---------------------------------------------------------------- shared backends

  /** An insert that won: from when its time to live counts, and the server's time. */
  datatype Win = Win(key: string, base: int, time: int)

  datatype Table = Table(clock: int, rows: map<string, int>, wins: seq<Win>)

  /** PostgreSQL and Redis keep a key's expiry in milliseconds of the server's clock; DynamoDB keeps
      it in whole seconds of the client's. PostgreSQL's `now()` is the start of the statement, which may
      then have waited for another one. Redis expires a key by the same rule as PgDelete. */
  datatype Statement =
    | Tick(ms: nat)
    | PgDelete(key: string, started: int)
    | PgInsert(key: string, started: int)
    | RedisSet(key: string)
    | DynamoPut(key: string, client: int)
    | DynamoSweep(key: string)

  predicate OnServerClock(e: Statement) {
    e.Tick? || e.PgDelete? || e.PgInsert? || e.RedisSet?
  }

  predicate Dynamo(e: Statement) {
    e.Tick? || e.DynamoPut? || e.DynamoSweep?
  }

  function CeilSeconds(ms: nat): nat {
    (ms + 999) / 1000
  }

  /** The expiry the backend stores for a key whose time to live counts from `base`. */
  function ExpiryOf(dynamo: bool, ttl: nat, base: int): int {
    if dynamo then base / 1000 + CeilSeconds(ttl) else base + ttl
  }

  /** A client reads its clock before its statement reaches the server, and a statement starts before
      it takes effect. */
  predicate Enabled(t: Table, e: Statement) {
    && (e.DynamoPut? ==> e.client <= t.clock)
    && (e.PgDelete? || e.PgInsert? ==> e.started <= t.clock)
  }

  function RecordWin(t: Table, key: string, base: int, expiry: int): Table {
    t.(rows := t.rows[key := expiry], wins := t.wins + [Win(key, base, t.clock)])
  }

  function Execute(ttl: nat, t: Table, e: Statement): Table
    requires Enabled(t, e)
  {
    match e
    case Tick(ms) => t.(clock := t.clock + ms)
    case PgDelete(key, started) =>
      if key in t.rows && t.rows[key] < started then t.(rows := t.rows - {key}) else t
    case PgInsert(key, started) =>
      if key in t.rows then t else RecordWin(t, key, started, ExpiryOf(false, ttl, started))
    case RedisSet(key) =>
      if key in t.rows && t.rows[key] >= t.clock then t else RecordWin(t, key, t.clock, ExpiryOf(false, ttl, t.clock))
    case DynamoPut(key, client) =>
      if key in t.rows && t.rows[key] >= client / 1000 then t
      else RecordWin(t, key, client, ExpiryOf(true, ttl, client))
    case DynamoSweep(key) =>
      if key in t.rows && t.rows[key] < t.clock / 1000 then t.(rows := t.rows - {key}) else t
  }

  /** A winner's row is there, or its time to live is over. */
  ghost predicate Kept(dynamo: bool, ttl: nat, t: Table, w: Win) {
    && w.base <= w.time <= t.clock
    && ((w.key in t.rows && t.rows[w.key] == ExpiryOf(dynamo, ttl, w.base)) || t.clock > w.base + ttl)
  }

  ghost predicate Inv(dynamo: bool, ttl: nat, t: Table) {
    && (forall i :: 0 <= i < |t.wins| ==> Kept(dynamo, ttl, t, t.wins[i]))
    && (forall i, j :: 0 <= i < j < |t.wins| && t.wins[i].key == t.wins[j].key ==>
      t.wins[j].time > t.wins[i].base + ttl)
  }

  /** When a caller's statement finds the key free: absent, or past the expiry its backend compares against.
      PostgreSQL inserts only an absent key, so a caller first deletes an expired one. */
  predicate Free(t: Table, e: Statement) {
    match e
    case PgInsert(key, _) => key !in t.rows
    case RedisSet(key) => key !in t.rows || t.rows[key] < t.clock
    case DynamoPut(key, client) => key !in t.rows || t.rows[key] < client / 1000
    case _ => false
  }

  /** Every statement either wins its key, exactly when it is free, with a row that outlasts the time to live
      from its base; or it wins nothing, and then it leaves every row alone or takes away one that has expired. */
  lemma StatementsMean(ttl: nat, t: Table, e: Statement)
    requires Enabled(t, e)
    ensures var t' := Execute(ttl, t, e);
      && t'.clock == t.clock + (if e.Tick? then e.ms else 0)
      && (Free(t, e) ==>
            && t'.wins == t.wins + [Win(e.key, BaseOf(t, e), t.clock)]
            && t'.rows.Keys == t.rows.Keys + {e.key}
            && (forall k :: k in t.rows && k != e.key ==> t'.rows[k] == t.rows[k])
            && (!e.DynamoPut? ==> t'.rows[e.key] == BaseOf(t, e) + ttl)
            && (e.DynamoPut? ==> BaseOf(t, e) + ttl - 1000 < 1000 * t'.rows[e.key] < BaseOf(t, e) + ttl + 1000))
      && (!Free(t, e) ==>
            && t'.wins == t.wins
            && (t'.rows == t.rows
                || (e.PgDelete? && e.key in t.rows && t.rows[e.key] < e.started && t'.rows == t.rows - {e.key})
                || (&& e.DynamoSweep? && e.key in t.rows && t.rows[e.key] < t.clock / 1000
                    && t'.rows == t.rows - {e.key})))
  {
  }

  /** From when the time to live of a winning statement counts. */
  function BaseOf(t: Table, e: Statement): int {
    match e
    case PgInsert(_, started) => started
    case DynamoPut(_, client) => client
    case _ => t.clock
  }

  /** In PostgreSQL an expired key is won by the next caller: its delete makes room for its insert. */
  lemma ExpiredIsWonAgain(ttl: nat, t: Table, key: string, started: int)
    requires started <= t.clock && (key in t.rows ==> t.rows[key] < started)
    ensures var t' := Execute(ttl, t, PgDelete(key, started)); Free(t', PgInsert(key, started))
  {
  }

  /** Whole seconds never end a key early. */
  lemma SecondsAreLate(base: int, ttl: nat, now: int)
    requires base / 1000 + CeilSeconds(ttl) < now / 1000
    ensures now > base + ttl
  {
  }

  lemma WinKeepsInv(dynamo: bool, ttl: nat, t: Table, key: string, base: int)
    requires Inv(dynamo, ttl, t) && base <= t.clock
    requires forall i :: 0 <= i < |t.wins| && t.wins[i].key == key ==> t.clock > t.wins[i].base + ttl
    ensures Inv(dynamo, ttl, RecordWin(t, key, base, ExpiryOf(dynamo, ttl, base)))
  {
    hide ExpiryOf;
    var t' := RecordWin(t, key, base, ExpiryOf(dynamo, ttl, base));
    forall i | 0 <= i < |t.wins|
      ensures t'.wins[i] == t.wins[i] && Kept(dynamo, ttl, t', t'.wins[i])
    {
      assert Kept(dynamo, ttl, t, t.wins[i]);
    }
  }

  lemma RemoveKeepsInv(dynamo: bool, ttl: nat, t: Table, key: string)
    requires Inv(dynamo, ttl, t)
    requires forall i :: 0 <= i < |t.wins| && t.wins[i].key == key ==> t.clock > t.wins[i].base + ttl
    ensures Inv(dynamo, ttl, t.(rows := t.rows - {key}))
  {
    hide ExpiryOf;
    forall i | 0 <= i < |t.wins|
      ensures Kept(dynamo, ttl, t.(rows := t.rows - {key}), t.wins[i])
    {
      assert Kept(dynamo, ttl, t, t.wins[i]);
    }
  }

  lemma TickKeepsInv(dynamo: bool, ttl: nat, t: Table, ms: nat)
    requires Inv(dynamo, ttl, t)
    ensures Inv(dynamo, ttl, t.(clock := t.clock + ms))
  {
    hide ExpiryOf;
    forall i | 0 <= i < |t.wins|
      ensures Kept(dynamo, ttl, t.(clock := t.clock + ms), t.wins[i])
    {
      assert Kept(dynamo, ttl, t, t.wins[i]);
    }
  }

  /** If the row of a key is gone or expired, every earlier winner's time to live is over. */
  lemma ExpiredRow(dynamo: bool, ttl: nat, t: Table, key: string)
    requires Inv(dynamo, ttl, t)
    requires key in t.rows ==> if dynamo then t.rows[key] < t.clock / 1000 else t.rows[key] < t.clock
    ensures forall i :: 0 <= i < |t.wins| && t.wins[i].key == key ==> t.clock > t.wins[i].base + ttl
  {
    hide CeilSeconds;
    forall i | 0 <= i < |t.wins| && t.wins[i].key == key
      ensures t.clock > t.wins[i].base + ttl
    {
      assert Kept(dynamo, ttl, t, t.wins[i]);
      if dynamo && t.clock <= t.wins[i].base + ttl {
        SecondsAreLate(t.wins[i].base, ttl, t.clock);
      }
    }
  }

  lemma StatementKeepsInv(dynamo: bool, ttl: nat, t: Table, e: Statement)
    requires Inv(dynamo, ttl, t) && Enabled(t, e) && (if dynamo then Dynamo(e) else OnServerClock(e))
    ensures Inv(dynamo, ttl, Execute(ttl, t, e))
  {
    hide Inv;
    match e
    case Tick(ms) => TickKeepsInv(dynamo, ttl, t, ms);
    case PgDelete(key, started) =>
      if key in t.rows && t.rows[key] < started {
        ExpiredRow(dynamo, ttl, t, key);
        RemoveKeepsInv(dynamo, ttl, t, key);
      }
    case PgInsert(key, started) =>
      if key !in t.rows {
        ExpiredRow(dynamo, ttl, t, key);
        WinKeepsInv(dynamo, ttl, t, key, started);
      }
    case RedisSet(key) =>
      if key !in t.rows || t.rows[key] < t.clock {
        ExpiredRow(dynamo, ttl, t, key);
        WinKeepsInv(dynamo, ttl, t, key, t.clock);
      }
    case DynamoPut(key, client) =>
      if key !in t.rows || t.rows[key] < client / 1000 {
        assert client / 1000 <= t.clock / 1000;
        ExpiredRow(dynamo, ttl, t, key);
        WinKeepsInv(dynamo, ttl, t, key, client);
      }
    case DynamoSweep(key) =>
      if key in t.rows && t.rows[key] < t.clock / 1000 {
        ExpiredRow(dynamo, ttl, t, key);
        RemoveKeepsInv(dynamo, ttl, t, key);
      }
  }

  predicate IsRun(ttl: nat, t: Table, es: seq<Statement>)
    decreases |es|
  {
    es == [] || (Enabled(t, es[0]) && IsRun(ttl, Execute(ttl, t, es[0]), es[1..]))
  }

  function RunFrom(ttl: nat, t: Table, es: seq<Statement>): Table
    requires IsRun(ttl, t, es)
    decreases |es|
  {
    if es == [] then t else RunFrom(ttl, Execute(ttl, t, es[0]), es[1..])
  }

  lemma {:induction false} RunKeepsInv(dynamo: bool, ttl: nat, t: Table, es: seq<Statement>)
    requires Inv(dynamo, ttl, t) && IsRun(ttl, t, es)
    requires forall e :: e in es ==> if dynamo then Dynamo(e) else OnServerClock(e)
    ensures Inv(dynamo, ttl, RunFrom(ttl, t, es))
    decreases |es|
  {
    hide Inv;
    if es != [] {
      StatementKeepsInv(dynamo, ttl, t, es[0]);
      RunKeepsInv(dynamo, ttl, Execute(ttl, t, es[0]), es[1..]);
    }
  }

  const EMPTY: Table := Table(0, map[], [])

  /** However the statements of many callers interleave, a key is won again only after its time to
      live: counted from the start of the statement for PostgreSQL, from the server's insert for Redis, and
      from the first client's clock for DynamoDB. */
  lemma WonAgainOnlyAfterTtl(dynamo: bool, ttl: nat, es: seq<Statement>, i: nat, j: nat)
    requires IsRun(ttl, EMPTY, es) && forall e :: e in es ==> if dynamo then Dynamo(e) else OnServerClock(e)
    requires i < j < |RunFrom(ttl, EMPTY, es).wins|
    ensures var wins := RunFrom(ttl, EMPTY, es).wins;
      && wins[i].key == wins[j].key ==> wins[j].time > wins[i].base + ttl
  {
    RunKeepsInv(dynamo, ttl, EMPTY, es);
  }
}
