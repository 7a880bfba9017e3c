/**
  The principal directory (src/authz/principal.ts:84-147): lifecycle events kept in time order,
  and the state of a principal as of a point in time. Times are integers (milliseconds).
 */
module Principal {
  import opened Basics
  import opened StableSort

  datatype Kind = KeyBound | KeyRetired | Suspended | Reinstated | Revoked | Decommissioned

  /** Public keys of a directory entry, compared by value. */
  type Key = string

  datatype Event = Event(principal: string, kind: Kind, at: int, keyId: Option<string>, key: Option<Key>)

  datatype Record = Record(principal: string, issuer: string, createdAt: int, expiresAt: Option<int>,
      keys: map<string, Key>)

  datatype Entry = Entry(record: Record, events: seq<Event>)

  type Directory = map<string, Entry>

  datatype Status = Active | IsSuspended | IsRevoked | IsDecommissioned

  datatype State = Unknown | Known(status: Status, record: Record, keys: map<string, Key>)

  function ByTime(a: Event, b: Event): int {
    a.at - b.at
  }

  // ---------------------------------------------------------------- state as of a time

  /** One lifecycle event. Only an active principal can be suspended, only a suspended one reinstated. */
  function ApplyEvent(s: State, e: Event): State
    requires s.Known?
    ensures ApplyEvent(s, e).Known?
  {
    match e.kind
    case KeyBound => if e.keyId.Some? && e.key.Some? then s.(keys := s.keys[e.keyId.value := e.key.value]) else s
    case KeyRetired => if e.keyId.Some? then s.(keys := s.keys - {e.keyId.value}) else s
    case Suspended => s.(status := if s.status == Active then IsSuspended else s.status)
    case Reinstated => s.(status := if s.status == IsSuspended then Active else s.status)
    case Revoked => s.(status := IsRevoked)
    case Decommissioned => s.(status := IsDecommissioned)
  }

  function Fold(record: Record, events: seq<Event>): (s: State)
    ensures s.Known?
    decreases |events|
  {
    if events == [] then Known(Active, record, record.keys)
    else ApplyEvent(Fold(record, events[..|events| - 1]), events[|events| - 1])
  }

  lemma FoldNil(record: Record)
    ensures Fold(record, []) == Known(Active, record, record.keys)
  {
  }

  lemma FoldSnoc(record: Record, events: seq<Event>, e: Event)
    ensures Fold(record, events + [e]) == ApplyEvent(Fold(record, events), e)
  {
    assert (events + [e])[..|events|] == events;
  }

  /** The events dated at or before t, in order. */
  function Upto(events: seq<Event>, t: int): seq<Event>
    decreases |events|
  {
    if events == [] then []
    else Upto(events[..|events| - 1], t) + (if events[|events| - 1].at <= t then [events[|events| - 1]] else [])
  }

  /** The state at t: unknown before creation, then the fold over exactly the events up to t. */
  function AsOf(dir: Directory, principal: string, t: int): State {
    if principal !in dir || t < dir[principal].record.createdAt then Unknown
    else Fold(dir[principal].record, Upto(dir[principal].events, t))
  }

  ghost predicate InOrder(events: seq<Event>) {
    SortedBy(ByTime, events)
  }

  lemma {:induction false} LaterIsLater(events: seq<Event>, i: nat, j: nat)
    requires InOrder(events) && i <= j < |events|
    ensures events[i].at <= events[j].at
    decreases |events|
  {
    var last := |events| - 1;
    if j == last && i < last {
      LaterIsLater(events[..last], i, last - 1);
    } else if j < last {
      LaterIsLater(events[..last], i, j);
    }
  }

  lemma {:induction false} UptoSplit(events: seq<Event>, t: int, i: nat)
    requires i <= |events|
    requires forall j :: 0 <= j < i ==> events[j].at <= t
    requires forall j :: i <= j < |events| ==> events[j].at > t
    ensures Upto(events, t) == events[..i]
    decreases |events|
  {
    if events != [] {
      var last := |events| - 1;
      if i == |events| {
        UptoSplit(events[..last], t, last);
        assert events[..i] == events[..last] + [events[last]];
      } else {
        UptoSplit(events[..last], t, i);
        assert events[..last][..i] == events[..i];
      }
    }
  }

  // ---------------------------------------------------------------- stability

  /** Inserting an event dated after t leaves the events up to t alone; any other is inserted among them. */
  lemma {:induction false} InsertUpto(events: seq<Event>, e: Event, t: int)
    ensures Upto(Insert(ByTime, events, e), t)
         == if e.at <= t then Insert(ByTime, Upto(events, t), e) else Upto(events, t)
    decreases |events|
  {
    hide Insert, Upto;
    UptoNil(t);
    if events == [] {
      InsertAtEnd(ByTime, [], e);
      UptoSnoc([], e, t);
    } else {
      var init, last := events[..|events| - 1], events[|events| - 1];
      assert events == init + [last];
      UptoSnoc(init, last, t);
      if ByTime(last, e) <= 0 {
        InsertAtEnd(ByTime, events, e);
        UptoSnoc(events, e, t);
        if e.at <= t {
          InsertAtEnd(ByTime, Upto(events, t), e);
        }
      } else {
        InsertUpto(init, e, t);
        InsertBefore(ByTime, init, last, e);
        UptoSnoc(Insert(ByTime, init, e), last, t);
        if last.at <= t {
          InsertBefore(ByTime, Upto(init, t), last, e);
        }
      }
    }
  }

  lemma UptoNil(t: int)
    ensures Upto([], t) == []
  {
  }

  lemma UptoSnoc(events: seq<Event>, e: Event, t: int)
    ensures Upto(events + [e], t) == if e.at <= t then Upto(events, t) + [e] else Upto(events, t)
  {
    assert (events + [e])[..|events|] == events;
  }

  /** Sorting commutes with looking only at the past. */
  lemma {:induction false} SortUpto(applied: seq<Event>, t: int)
    ensures Upto(Sort(ByTime, applied), t) == Sort(ByTime, Upto(applied, t))
    decreases |applied|
  {
    hide Insert, Sort, Upto;
    UptoNil(t);
    if applied == [] {
      SortNil(ByTime);
    } else {
      var init, last := applied[..|applied| - 1], applied[|applied| - 1];
      assert applied == init + [last];
      SortUpto(init, t);
      SortSnoc(ByTime, init, last);
      InsertUpto(Sort(ByTime, init), last, t);
      UptoSnoc(init, last, t);
      if last.at <= t {
        SortSnoc(ByTime, Upto(init, t), last);
      }
    }
  }

  /** As-of state is stable: whatever was applied, in whatever order of arrival, the state at t is
      determined by the events dated at or before t, in their order of arrival. */
  lemma AsOfStable(record: Record, a: seq<Event>, b: seq<Event>, t: int)
    requires Upto(a, t) == Upto(b, t)
    ensures Fold(record, Upto(Sort(ByTime, a), t)) == Fold(record, Upto(Sort(ByTime, b), t))
  {
    SortUpto(a, t);
    SortUpto(b, t);
  }

  predicate Ends(e: Event) {
    e.kind == Revoked || e.kind == Decommissioned
  }

  /** The suspension at i was lifted later. */
  ghost predicate LiftedAfter(events: seq<Event>, i: nat) {
    exists j :: i < j < |events| && events[j].kind == Reinstated
  }

  ghost predicate AllLifted(events: seq<Event>) {
    forall i :: 0 <= i < |events| && events[i].kind == Suspended ==> LiftedAfter(events, i)
  }

  lemma LastNotLifted(events: seq<Event>)
    requires events != []
    ensures !LiftedAfter(events, |events| - 1)
  {
  }

  lemma LiftedNil()
    ensures AllLifted([])
  {
  }

  lemma LiftedSnoc(init: seq<Event>, last: Event)
    ensures AllLifted(init + [last]) <==> last.kind == Reinstated || (last.kind != Suspended && AllLifted(init))
  {
    var events := init + [last];
    assert forall i :: 0 <= i < |init| ==> events[i] == init[i];
    assert events[|init|] == last;
    LastNotLifted(events);
    if AllLifted(events) && last.kind != Reinstated {
      forall i | 0 <= i < |init| && init[i].kind == Suspended
        ensures LiftedAfter(init, i)
      {
        assert LiftedAfter(events, i);
        var j :| i < j < |events| && events[j].kind == Reinstated;
        assert init[j].kind == Reinstated;
      }
    }
    if last.kind == Reinstated || (last.kind != Suspended && AllLifted(init)) {
      forall i | 0 <= i < |events| && events[i].kind == Suspended
        ensures LiftedAfter(events, i)
      {
        if last.kind != Reinstated {
          assert LiftedAfter(init, i);
          var j :| i < j < |init| && init[j].kind == Reinstated;
          assert events[j].kind == Reinstated;
        }
      }
    }
  }

  /** The last event that ends the principal is of this kind. */
  ghost predicate EndedBy(events: seq<Event>, kind: Kind) {
    exists i :: 0 <= i < |events| && events[i].kind == kind && forall j :: i < j < |events| ==> !Ends(events[j])
  }

  /** What the status says about the past: terminal exactly after an ending event, by the last of them,
      otherwise active exactly if every suspension was lifted later. */
  lemma {:induction false} StatusMeans(record: Record, events: seq<Event>)
    ensures var status := Fold(record, events).status;
      && (Terminal(status) <==> exists i :: 0 <= i < |events| && Ends(events[i]))
      && (status == IsRevoked <==> EndedBy(events, Revoked))
      && (status == IsDecommissioned <==> EndedBy(events, Decommissioned))
      && (status == Active <==> AllLifted(events) && forall i :: 0 <= i < |events| ==> !Ends(events[i]))
    decreases |events|
  {
    hide AllLifted, EndedBy;
    if events == [] {
      LiftedNil();
      NotEnded();
    } else {
      var init, last := events[..|events| - 1], events[|events| - 1];
      assert events == init + [last];
      StatusMeans(record, init);
      LiftedSnoc(init, last);
      EndedSnoc(init, last, Revoked);
      EndedSnoc(init, last, Decommissioned);
      assert forall i :: 0 <= i < |init| ==> events[i] == init[i];
    }
  }

  lemma NotEnded()
    ensures !EndedBy([], Revoked) && !EndedBy([], Decommissioned)
  {
  }

  lemma EndedSnoc(init: seq<Event>, last: Event, kind: Kind)
    requires kind == Revoked || kind == Decommissioned
    ensures EndedBy(init + [last], kind) <==> last.kind == kind || (!Ends(last) && EndedBy(init, kind))
  {
    var events := init + [last];
    assert forall i :: 0 <= i < |init| ==> events[i] == init[i];
    if last.kind == kind {
      assert events[|init|].kind == kind;
    }
    if i :| 0 <= i < |init| && init[i].kind == kind && forall j :: i < j < |init| ==> !Ends(init[j]) {
      assert events[i].kind == kind;
      if !Ends(last) {
        assert forall j :: i < j < |events| ==> !Ends(events[j]);
      }
    }
    if i :| 0 <= i < |events| && events[i].kind == kind && forall j :: i < j < |events| ==> !Ends(events[j]) {
      if i < |init| {
        assert init[i].kind == kind && forall j :: i < j < |init| ==> !Ends(init[j]);
        assert !Ends(events[|init|]);
      }
    }
  }

  /** The event says something about the key of this id. */
  predicate About(e: Event, k: string) {
    e.keyId == Some(k) && (e.kind == KeyRetired || (e.kind == KeyBound && e.key.Some?))
  }

  ghost predicate LastAbout(events: seq<Event>, i: nat, k: string) {
    i < |events| && About(events[i], k) && forall j :: i < j < |events| ==> !About(events[j], k)
  }

  /** The keys after some events: the last event about a key decides, and without one the record does. */
  lemma {:induction false} KeysMean(record: Record, events: seq<Event>, k: string)
    ensures var keys := Fold(record, events).keys;
      && (forall i :: 0 <= i < |events| && LastAbout(events, i, k) ==>
            if events[i].kind == KeyBound then k in keys && keys[k] == events[i].key.value else k !in keys)
      && ((forall i :: 0 <= i < |events| ==> !About(events[i], k)) ==>
            (k in keys <==> k in record.keys) && (k in keys ==> keys[k] == record.keys[k]))
    decreases |events|
  {
    if events != [] {
      var init, last := events[..|events| - 1], events[|events| - 1];
      assert events == init + [last];
      KeysMean(record, init, k);
    }
  }

  predicate Terminal(s: Status) {
    s == IsRevoked || s == IsDecommissioned
  }

  lemma {:induction false} UptoMember(events: seq<Event>, e: Event, t: int)
    ensures e in Upto(events, t) <==> e in events && e.at <= t
    decreases |events|
  {
    if events != [] {
      UptoMember(events[..|events| - 1], e, t);
      assert events == events[..|events| - 1] + [events[|events| - 1]];
    }
  }

  /** At no time from a revocation on is the principal active or suspended, whatever else is applied. */
  lemma RevokedFromThenOn(dir: Directory, principal: string, e: Event, t: int)
    requires principal in dir && e in dir[principal].events && e.at <= t
    requires e.kind == Revoked || e.kind == Decommissioned
    ensures var s := AsOf(dir, principal, t); s.Unknown? || Terminal(s.status)
  {
    UptoMember(dir[principal].events, e, t);
    if t >= dir[principal].record.createdAt {
      var past := Upto(dir[principal].events, t);
      StatusMeans(dir[principal].record, past);
      var i :| 0 <= i < |past| && past[i] == e;
      assert Ends(past[i]);
    }
  }

  // ---------------------------------------------------------------- usable principals

  /** `check`: known, not expired, active, and holding the key when one is asked for. */
  predicate Usable(dir: Directory, principal: string, t: int, keyId: string) {
    var s := AsOf(dir, principal, t);
    && s.Known?
    && (s.record.expiresAt.Some? ==> t <= s.record.expiresAt.value)
    && s.status == Active
    && (keyId != "" ==> keyId in s.keys)
  }

  function KeyAt(dir: Directory, principal: string, keyId: string, t: int): Option<Key> {
    var s := AsOf(dir, principal, t);
    if s.Known? && keyId in s.keys then Some(s.keys[keyId]) else None
  }

  /** Created, not expired, neither revoked nor decommissioned by then, and every suspension up to then
      lifted up to then. */
  ghost predicate InForce(dir: Directory, who: string, t: int) {
    && who in dir && dir[who].record.createdAt <= t
    && (dir[who].record.expiresAt.None? || t <= dir[who].record.expiresAt.value)
    && (forall e :: e in dir[who].events && e.at <= t ==> e.kind != Revoked && e.kind != Decommissioned)
    && var past := Upto(dir[who].events, t);
       forall i :: 0 <= i < |past| && past[i].kind == Suspended ==>
         exists j :: i < j < |past| && past[j].kind == Reinstated
  }

  /** By then the last event about this key bound it to v, or there was none and the record has it so. */
  ghost predicate HoldsKey(dir: Directory, who: string, k: string, t: int, v: Key) {
    && who in dir && dir[who].record.createdAt <= t
    && var past, keys := Upto(dir[who].events, t), dir[who].record.keys;
       || (exists i: nat :: LastAbout(past, i, k) && past[i].kind == KeyBound && past[i].key == Some(v))
       || ((forall i :: 0 <= i < |past| ==> !About(past[i], k)) && k in keys && keys[k] == v)
  }

  /** What `check` answers, in terms of the record and the events up to the time. */
  lemma UsableExactly(dir: Directory, who: string, t: int, keyId: string)
    ensures Usable(dir, who, t, keyId) <==>
      InForce(dir, who, t) && (keyId != "" ==> exists v :: HoldsKey(dir, who, keyId, t, v))
  {
    hide Fold, HoldsKey;
    if who in dir && dir[who].record.createdAt <= t {
      var past := Upto(dir[who].events, t);
      StatusMeans(dir[who].record, past);
      FoldRecord(dir[who].record, past);
      forall e
        ensures e in past <==> e in dir[who].events && e.at <= t
      {
        UptoMember(dir[who].events, e, t);
      }
      assert (exists i :: 0 <= i < |past| && Ends(past[i])) <==> exists e :: e in past && Ends(e);
    }
    if keyId != "" {
      forall v
        ensures KeyAt(dir, who, keyId, t) == Some(v) <==> HoldsKey(dir, who, keyId, t, v)
      {
        KeyAtExactly(dir, who, keyId, t, v);
      }
    }
    assert Usable(dir, who, t, keyId) ==> keyId == "" || KeyAt(dir, who, keyId, t).Some?;
    NotInForceWithout(dir, who, t, keyId);
  }

  lemma NotInForceWithout(dir: Directory, who: string, t: int, keyId: string)
    ensures forall v :: HoldsKey(dir, who, keyId, t, v) ==> who in dir && dir[who].record.createdAt <= t
  {
  }

  lemma {:induction false} FoldRecord(record: Record, events: seq<Event>)
    ensures Fold(record, events).record == record
    decreases |events|
  {
    if events != [] {
      FoldRecord(record, events[..|events| - 1]);
    }
  }

  lemma KeyAtExactly(dir: Directory, who: string, k: string, t: int, v: Key)
    ensures KeyAt(dir, who, k, t) == Some(v) <==> HoldsKey(dir, who, k, t, v)
  {
    hide Fold;
    if who in dir && dir[who].record.createdAt <= t {
      var past := Upto(dir[who].events, t);
      KeysMean(dir[who].record, past, k);
      LastAboutExists(past, k);
    }
  }

  lemma {:induction false} LastAboutExists(events: seq<Event>, k: string)
    ensures (exists i :: 0 <= i < |events| && About(events[i], k)) ==> exists i: nat :: LastAbout(events, i, k)
    decreases |events|
  {
    hide About;
    if i :| 0 <= i < |events| && About(events[i], k) {
      var last := |events| - 1;
      if About(events[last], k) {
        assert LastAbout(events, last, k);
      } else {
        var init := events[..last];
        assert About(init[i], k);
        LastAboutExists(init, k);
        var j: nat :| LastAbout(init, j, k);
        assert LastAbout(events, j, k);
      }
    }
  }

  // ---------------------------------------------------------------- the object

  /** A principal without events. */
  function Newly(record: Record, t: int): State {
    if t < record.createdAt then Unknown else Known(Active, record, record.keys)
  }

  /** What the signature check and the trust store say about a record, and the key that signed it. */
  datatype Vouching = Vouching(intact: bool, signed: bool, trusted: bool, keyId: string)

  datatype Enrolment = Enrolled | NotIntact | NotSigned | NotTrusted | IssuerMismatch | Duplicate

  class PrincipalDirectory {
    var entries: Directory
    /** Accepted events of each principal in order of arrival. */
    ghost var arrived: map<string, seq<Event>>

    ghost predicate Valid()
      reads this
    {
      && arrived.Keys == entries.Keys
      && forall p :: p in entries ==> entries[p].events == Sort(ByTime, arrived[p]) && InOrder(entries[p].events)
    }

    constructor ()
      ensures Valid() && entries == map[]
    {
      entries := map[];
      arrived := map[];
    }

    /** The checks in order; a record enrolled is active from its creation on, and no one else changes. */
    method Enroll(record: Record, v: Vouching) returns (r: Enrolment)
      requires Valid()
      modifies this
      ensures Valid()
      ensures r == NotIntact <==> !v.intact
      ensures r == NotSigned <==> v.intact && !v.signed
      ensures r == NotTrusted <==> v.intact && v.signed && !v.trusted
      ensures r == IssuerMismatch <==> v.intact && v.signed && v.trusted && record.issuer != v.keyId
      ensures r == Duplicate <==>
        v.intact && v.signed && v.trusted && record.issuer == v.keyId && record.principal in old(entries)
      ensures entries == if r == Enrolled then old(entries)[record.principal := Entry(record, [])] else old(entries)
      ensures r == Enrolled ==> forall t ::
        AsOf(entries, record.principal, t) == Newly(record, t)
      ensures forall p, t :: p != record.principal ==> AsOf(entries, p, t) == AsOf(old(entries), p, t)
    {
      hide Sort, SortedBy, AsOf;
      SortedNone();
      if !v.intact {
        return NotIntact;
      }
      if !v.signed {
        return NotSigned;
      }
      if !v.trusted {
        return NotTrusted;
      }
      if record.issuer != v.keyId {
        return IssuerMismatch;
      }
      if record.principal in entries {
        return Duplicate;
      }
      EnrolledState(entries, record);
      entries := entries[record.principal := Entry(record, [])];
      arrived := arrived[record.principal := []];
      return Enrolled;
    }

    /** `signed`: intact, and the signature verifies; only the principal's issuer counts. */
    method Apply(e: Event, signer: string, signed: bool) returns (ok: bool)
      requires Valid()
      modifies this
      ensures Valid()
      ensures ok <==> e.principal in old(entries) && signed && signer == old(entries)[e.principal].record.issuer
                      && (e.kind == KeyBound ==> e.keyId.Some? && e.keyId.value != "" && e.key.Some?)
      ensures !ok ==> entries == old(entries) && arrived == old(arrived)
      ensures ok ==> arrived == old(arrived)[e.principal := old(arrived)[e.principal] + [e]]
      ensures ok ==> entries.Keys == old(entries).Keys
      ensures ok ==> entries[e.principal].record == old(entries)[e.principal].record
      ensures forall p, t :: (!ok || p != e.principal || t < e.at) ==> AsOf(entries, p, t) == AsOf(old(entries), p, t)
    {
      hide Sort, AsOf, SortedBy;
      if e.principal !in entries || !signed || signer != entries[e.principal].record.issuer {
        return false;
      }
      if e.kind == KeyBound && (e.keyId.None? || e.keyId.value == "" || e.key.None?) {
        return false;
      }
      var p := e.principal;
      var entry := entries[p];
      ghost var before, history := entries, arrived[p] + [e];
      ApplySorts(entry.events, arrived[p], e);
      entries := entries[p := Entry(entry.record, Sort(ByTime, entry.events + [e]))];
      arrived := arrived[p := history];
      ok := true;
      forall q, t | q != p || t < e.at
        ensures AsOf(entries, q, t) == AsOf(before, q, t)
      {
        PastUnchanged(before, entries, p, e, q, t);
      }
    }

    /** The loop stops at the first event after t; because the list is in order nothing is lost. */
    method StateAt(principal: string, t: int) returns (s: State)
      requires Valid()
      ensures s == AsOf(entries, principal, t)
    {
      hide Sort, SortedBy, Fold, Upto, ApplyEvent;
      if principal !in entries || t < entries[principal].record.createdAt {
        return Unknown;
      }
      var entry := entries[principal];
      var events := entry.events;
      s := Known(Active, entry.record, entry.record.keys);
      var i := 0;
      FoldNil(entry.record);
      while i < |events| && events[i].at <= t
        invariant 0 <= i <= |events| && forall j :: 0 <= j < i ==> events[j].at <= t
        invariant s == Fold(entry.record, events[..i])
      {
        FoldSnoc(entry.record, events[..i], events[i]);
        assert events[..i + 1] == events[..i] + [events[i]];
        s := ApplyEvent(s, events[i]);
        i := i + 1;
      }
      forall j | i <= j < |events|
        ensures events[j].at > t
      {
        LaterIsLater(events, i, j);
      }
      UptoSplit(events, t, i);
    }
  }

  lemma SortedNone()
    ensures Sort(ByTime, []) == [] && InOrder([])
  {
  }

  lemma EnrolledState(before: Directory, record: Record)
    ensures var after := before[record.principal := Entry(record, [])];
      && (forall t :: AsOf(after, record.principal, t) == Newly(record, t))
      && (forall p, t :: p != record.principal ==> AsOf(after, p, t) == AsOf(before, p, t))
  {
    FoldNil(record);
    assert forall t :: Upto([], t) == [];
  }

  /** Pushing onto a list in order and sorting is one stable insertion. */
  lemma ApplySorts(events: seq<Event>, arrived: seq<Event>, e: Event)
    requires events == Sort(ByTime, arrived) && InOrder(events)
    ensures Sort(ByTime, events + [e]) == Sort(ByTime, arrived + [e]) == Insert(ByTime, events, e)
    ensures InOrder(Sort(ByTime, events + [e]))
  {
    hide Insert;
    assert (events + [e])[..|events|] == events && (arrived + [e])[..|arrived|] == arrived;
    SortSorted(ByTime, events);
    SortSorts(ByTime, events + [e]);
  }

  lemma PastUnchanged(before: Directory, after: Directory, p: string, e: Event, q: string, t: int)
    requires p in before && InOrder(before[p].events)
    requires after == before[p := Entry(before[p].record, Sort(ByTime, before[p].events + [e]))]
    requires q != p || t < e.at
    ensures AsOf(after, q, t) == AsOf(before, q, t)
  {
    hide Insert;
    if q == p {
      var events := before[p].events;
      assert (events + [e])[..|events|] == events;
      SortSorted(ByTime, events);
      InsertUpto(events, e, t);
    }
  }
}
