/**
  `merge` and `spliceAt` as the source runs them (src/phala/anchor.ts:428-445, 593-599), on objects
  that may be shared: a graft spliced at several nodes hangs below each of them, and the same object
  is then merged into, or with itself, more than once. A `Shape` says what makes that safe.
 */
module OtsShared {
  import opened Basics
  import opened OtsWire
  import opened OtsTree
  import opened OtsMerge
  import opened OtsHeap
  import opened OtsRun

  /** All objects with a rank that falls along every link; the objects at or below a node that is spliced,
      with a level that falls by one along every link; among them those of the graft. */
  datatype Shape = Shape(
    nodes: set<Timestamp>, rank: map<Timestamp, nat>, below: set<Timestamp>, level: map<Timestamp, int>,
      graft: set<Timestamp>)

  ghost function Now(p: Shape): Heap
    reads p.nodes
  {
    map x | x in p.nodes :: Fields(x.attestations, x.ops)
  }

  // ---------------------------------------------------------------- the shape of a heap

  ghost predicate Ranked(p: Shape, h: Heap) {
    && p.nodes <= h.Keys && p.nodes <= p.rank.Keys
    && forall x, i :: x in p.nodes && 0 <= i < |h[x].ops| ==>
         h[x].ops[i].stamp in p.nodes && p.rank[h[x].ops[i].stamp] < p.rank[x]
  }

  /** Sub-messages are derived, and keys identify operations and attestations. */
  ghost predicate Derived(env: Env, p: Shape, h: Heap) {
    && p.nodes <= h.Keys
    && (forall x, i :: x in p.nodes && 0 <= i < |h[x].ops| ==> LinkFits(env, x.msg, h[x].ops[i]))
    && (forall x, a :: x in p.nodes && a in h[x].attestations ==> Keyed(env, a))
  }

  ghost predicate LinkFits(env: Env, msg: Bytes, e: Link) {
    |Arg(e.op)| < MAX_SAFE && ApplyOp(env, e.op, msg) == Some(e.stamp.msg)
  }

  ghost predicate Layered(p: Shape) {
    && p.graft <= p.below <= p.nodes && p.nodes <= p.rank.Keys && p.below <= p.level.Keys
    && (forall f :: f in p.graft ==> p.rank[f] == p.level[f])
    && (forall f, x :: f in p.graft && x in p.nodes - p.graft ==> p.rank[f] < p.rank[x])
  }

  ghost predicate Graded(p: Shape, h: Heap)
    requires Layered(p)
  {
    && p.nodes <= h.Keys
    && (forall x, i :: x in p.below && 0 <= i < |h[x].ops| ==>
          h[x].ops[i].stamp in p.below && p.level[h[x].ops[i].stamp] == p.level[x] - 1)
    && (forall f, i :: f in p.graft && 0 <= i < |h[f].ops| ==> h[f].ops[i].stamp in p.graft)
  }

  /** What the objects of the graft say is among `facts`. */
  ghost predicate Says(p: Shape, h: Heap, facts: set<Reached>) {
    p.graft <= h.Keys && forall f, a :: f in p.graft && a in h[f].attestations ==> Reached(a, f.msg) in facts
  }

  ghost predicate Sound(env: Env, p: Shape, h: Heap, facts: set<Reached>) {
    Layered(p) && Ranked(p, h) && Derived(env, p, h) && Graded(p, h) && Says(p, h, facts)
  }

  /** Between two heaps nothing was lost: only facts and links of the graft came in, below the spliced nodes. */
  ghost predicate Grown(p: Shape, h: Heap, h': Heap, facts: set<Reached>) {
    && p.nodes <= h.Keys && p.nodes <= h'.Keys
    && (forall x, a :: x in p.nodes && a in h[x].attestations ==> a in h'[x].attestations)
    && (forall x, a :: x in p.nodes && a in h'[x].attestations ==> a in h[x].attestations || Reached(a, x.msg) in facts)
    && (forall x :: x in p.nodes ==> h[x].ops <= h'[x].ops)
    && (forall x, i :: x in p.nodes && |h[x].ops| <= i < |h'[x].ops| ==> h'[x].ops[i].stamp in p.graft)
    && (forall x :: x in p.nodes - p.below ==> h'[x] == h[x])
  }

  // ---------------------------------------------------------------- what is reached

  ghost function Own(x: Timestamp, f: Fields): set<Reached> {
    set a | a in f.attestations :: Reached(a, x.msg)
  }

  /** Everything attested at or below an object. */
  ghost function Reach(p: Shape, h: Heap, x: Timestamp): set<Reached>
    requires Ranked(p, h) && x in p.nodes
    decreases p.rank[x]
  {
    Own(x, h[x]) + set i, y | 0 <= i < |h[x].ops| && y in Reach(p, h, h[x].ops[i].stamp) :: y
  }

  lemma {:induction false} ReachGrows(p: Shape, h: Heap, h': Heap, facts: set<Reached>, x: Timestamp)
    requires Ranked(p, h) && Ranked(p, h') && Grown(p, h, h', facts) && x in p.nodes
    ensures Reach(p, h, x) <= Reach(p, h', x)
    decreases p.rank[x]
  {
    forall y | y in Reach(p, h, x)
      ensures y in Reach(p, h', x)
    {
      if y !in Own(x, h[x]) {
        var i :| 0 <= i < |h[x].ops| && y in Reach(p, h, h[x].ops[i].stamp);
        ReachGrows(p, h, h', facts, h[x].ops[i].stamp);
        assert h'[x].ops[i] == h[x].ops[i];
      }
    }
  }

  lemma {:induction false} GraftReach(p: Shape, h: Heap, facts: set<Reached>, f: Timestamp)
    requires Layered(p) && Ranked(p, h) && Graded(p, h) && Says(p, h, facts) && f in p.graft
    ensures Reach(p, h, f) <= facts
    decreases p.rank[f]
  {
    forall y | y in Reach(p, h, f)
      ensures y in facts
    {
      if y !in Own(f, h[f]) {
        var i :| 0 <= i < |h[f].ops| && y in Reach(p, h, h[f].ops[i].stamp);
        GraftReach(p, h, facts, h[f].ops[i].stamp);
      }
    }
  }

  /** Nothing but facts of the graft was added anywhere. */
  lemma {:induction false} ReachBounded(p: Shape, h: Heap, h': Heap, facts: set<Reached>, x: Timestamp)
    requires Layered(p) && Ranked(p, h) && Ranked(p, h') && Graded(p, h') && Says(p, h', facts)
    requires Grown(p, h, h', facts) && x in p.nodes
    ensures Reach(p, h', x) <= Reach(p, h, x) + facts
    decreases p.rank[x]
  {
    forall y | y in Reach(p, h', x)
      ensures y in Reach(p, h, x) + facts
    {
      if y !in Own(x, h'[x]) {
        var i :| 0 <= i < |h'[x].ops| && y in Reach(p, h', h'[x].ops[i].stamp);
        if i < |h[x].ops| {
          assert h'[x].ops[i] == h[x].ops[i];
          ReachBounded(p, h, h', facts, h[x].ops[i].stamp);
        } else {
          GraftReach(p, h', facts, h'[x].ops[i].stamp);
        }
      }
    }
  }

  lemma ReachChild(p: Shape, h: Heap, x: Timestamp, i: nat)
    requires Ranked(p, h) && x in p.nodes && i < |h[x].ops|
    ensures Reach(p, h, h[x].ops[i].stamp) <= Reach(p, h, x)
  {
  }

  lemma GrownTransitive(p: Shape, h: Heap, h': Heap, h'': Heap, facts: set<Reached>)
    requires Grown(p, h, h', facts) && Grown(p, h', h'', facts)
    ensures Grown(p, h, h'', facts)
  {
    forall x, i | x in p.nodes && |h[x].ops| <= i < |h''[x].ops|
      ensures h''[x].ops[i].stamp in p.graft
    {
      if i < |h'[x].ops| {
        assert h''[x].ops[i] == h'[x].ops[i];
      }
    }
  }

  // ---------------------------------------------------------------- merge

  lemma AttestationsStep(env: Env, p: Shape, h: Heap, facts: set<Reached>, into: Timestamp, from: Timestamp,
      atts: seq<Attestation>)
    requires Sound(env, p, h, facts) && into in p.below && from in p.graft && into.msg == from.msg
    requires atts == MergeAttestations(env, h[into].attestations, h[from].attestations)
    ensures var h' := h[into := Fields(atts, h[into].ops)];
      Sound(env, p, h', facts) && Grown(p, h, h', facts) && Own(from, h[from]) <= Own(into, h'[into])
  {
    hide MergeAttestations, Keyed, LinkFits;
    AttestationsUnite(env, h[into].attestations, h[from].attestations);
  }

  lemma PushStep(env: Env, p: Shape, h: Heap, facts: set<Reached>, into: Timestamp, e: Link)
    requires Sound(env, p, h, facts) && into in p.below && e.stamp in p.graft
    requires LinkFits(env, into.msg, e) && p.level[e.stamp] == p.level[into] - 1
    ensures var h' := h[into := Fields(h[into].attestations, h[into].ops + [e])];
      Sound(env, p, h', facts) && Grown(p, h, h', facts)
  {
    hide Keyed, LinkFits;
  }

  ghost predicate SameAbove(p: Shape, h: Heap, h': Heap, into: Timestamp)
    requires Layered(p) && p.nodes <= h.Keys && p.nodes <= h'.Keys && into in p.below
  {
    forall x :: x in p.below && x != into && p.level[x] >= p.level[into] ==> h'[x] == h[x]
  }

  /** The `find` over the operations of an object. */
  method FindKey(ops: seq<Link>, op: Op) returns (r: Option<nat>)
    ensures r == Find(ops, WriteOp(op))
  {
    hide WriteOp;
    for i := 0 to |ops|
      invariant forall k :: 0 <= k < i ==> Key(ops[k]) != WriteOp(op)
    {
      if WriteOp(ops[i].op) == WriteOp(op) {
        return Some(i);
      }
    }
    return None;
  }

  lemma RankedClosed(p: Shape, h: Heap)
    requires Ranked(p, h) && h.Keys == p.nodes
    ensures Closed(h)
  {
  }

  lemma ChildBelow(env: Env, p: Shape, h: Heap, facts: set<Reached>, x: Timestamp, i: nat)
    requires Sound(env, p, h, facts) && x in p.below && i < |h[x].ops|
    ensures var e := h[x].ops[i];
      && e.stamp in p.below && p.level[e.stamp] == p.level[x] - 1 && LinkFits(env, x.msg, e)
      && (x in p.graft ==> e.stamp in p.graft && p.rank[e.stamp] < p.rank[x])
  {
  }

  /** One turn of the loop over `from.ops`. */
  method MergeEntry(env: Env, into: Timestamp, e: Link, ghost p: Shape, ghost facts: set<Reached>)
    returns (ok: bool, ghost fuel: nat)
    requires Sound(env, p, Now(p), facts) && into in p.below && e.stamp in p.graft
    requires LinkFits(env, into.msg, e) && p.level[e.stamp] == p.level[into] - 1
    modifies p.below
    ensures ok && Sound(env, p, Now(p), facts) && Grown(p, old(Now(p)), Now(p), facts)
    ensures SameAbove(p, old(Now(p)), Now(p), into) && into.attestations == old(into.attestations)
    ensures e in old(into.ops) ==> into.ops == old(into.ops)
    ensures Reach(p, old(Now(p)), e.stamp) <= Reach(p, Now(p), into)
    ensures Closed(old(Now(p))) && EntryRun(env, old(Now(p)), into, e, fuel) == Done(Now(p))
    decreases p.rank[e.stamp], 4
  {
    hide Ranked, Derived, Graded, Says, Grown, Reach, WriteOp, ApplyOp;
    ghost var h := Now(p);
    RankedClosed(p, h);
    var k := FindKey(into.ops, e.op);
    if k.None? {
      PushStep(env, p, h, facts, into, e);
      into.ops := into.ops + [e];
      assert Now(p) == h[into := Fields(h[into].attestations, h[into].ops + [e])];
      ReachGrows(p, h, Now(p), facts, e.stamp);
      ReachChild(p, Now(p), into, |h[into].ops|);
      return true, 0;
    }
    var mine := into.ops[k.value];
    ChildBelow(env, p, h, facts, into, k.value);
    OpKey(mine.op, e.op);
    ok, fuel := MergeShared(env, mine.stamp, e.stamp, p, facts);
    fuel := fuel + 1;
    assert Now(p)[into] == h[into];
    ReachChild(p, Now(p), into, k.value);
  }

  /** The loop over `from.attestations`. */
  method TakeAttestations(env: Env, into: Timestamp, from: Timestamp, ghost p: Shape, ghost facts: set<Reached>)
    requires Sound(env, p, Now(p), facts) && into in p.below && from in p.graft && into.msg == from.msg
    modifies p.below
    ensures Sound(env, p, Now(p), facts) && Grown(p, old(Now(p)), Now(p), facts)
    ensures SameAbove(p, old(Now(p)), Now(p), into) && from.ops == old(from.ops)
    ensures var h := old(Now(p));
      Now(p) == h[into := Fields(MergeAttestations(env, h[into].attestations, h[from].attestations), h[into].ops)]
    ensures Own(from, old(Now(p))[from]) <= Own(into, Now(p)[into])
  {
    hide Ranked, Derived, Graded, Says, Grown, Own, MergeAttestations;
    ghost var h := Now(p);
    var atts := UniteAttestations(env, into.attestations, from.attestations);
    AttestationsStep(env, p, h, facts, into, from, atts);
    into.attestations := atts;
    assert Now(p) == h[into := Fields(atts, h[into].ops)];
  }

  /** merge: never throws on objects about one message; `into` then reaches all that `from` reached. */
  method MergeShared(env: Env, into: Timestamp, from: Timestamp, ghost p: Shape, ghost facts: set<Reached>)
    returns (ok: bool, ghost fuel: nat)
    requires Sound(env, p, Now(p), facts) && into in p.below && from in p.graft && p.level[into] == p.level[from]
    modifies p.below
    ensures ok <==> into.msg == from.msg
    ensures Sound(env, p, Now(p), facts) && Grown(p, old(Now(p)), Now(p), facts)
    ensures SameAbove(p, old(Now(p)), Now(p), into)
    ensures ok ==> Reach(p, old(Now(p)), from) <= Reach(p, Now(p), into)
    ensures !ok ==> Now(p) == old(Now(p))
    ensures Closed(old(Now(p))) && MergeRun(env, old(Now(p)), into, from, fuel) == if ok then Done(Now(p)) else Threw
    decreases p.rank[from], 3
  {
    hide Ranked, Derived, Graded, Says, Grown, Reach, Own, Covered, LoopRun, Closed, MergeAttestations;
    ghost var h0 := Now(p);
    GrownNot(p, h0, facts);
    RankedClosed(p, h0);
    if into.msg != from.msg {
      return false, 1;
    }
    TakeAttestations(env, into, from, p, facts);
    ghost var h1 := Now(p);
    fuel := MergeOpsShared(env, into, from, p, facts);
    GrownTransitive(p, h0, h1, Now(p), facts);
    ReachCovered(p, h0, h1, Now(p), facts, from, into);
    ok, fuel := true, fuel + 1;
  }

  /** The loop over `from.ops`. */
  method MergeOpsShared(env: Env, into: Timestamp, from: Timestamp, ghost p: Shape, ghost facts: set<Reached>)
    returns (ghost fuel: nat)
    requires Sound(env, p, Now(p), facts) && into in p.below && from in p.graft && p.level[into] == p.level[from]
    requires into.msg == from.msg
    modifies p.below
    ensures Sound(env, p, Now(p), facts) && Grown(p, old(Now(p)), Now(p), facts)
    ensures SameAbove(p, old(Now(p)), Now(p), into)
    ensures Covered(p, old(Now(p)), Now(p), from, into, |old(from.ops)|)
    ensures Closed(old(Now(p))) && LoopRun(env, old(Now(p)), into, from, 0, fuel) == Done(Now(p))
    decreases p.rank[from], 1
  {
    hide Ranked, Derived, Graded, Says, Grown, Reach, Covered, LoopRun, EntryRun, Ran, Closed, LinkFits;
    ghost var h0, links := Now(p), from.ops;
    fuel := 0;
    GrownNot(p, h0, facts);
    RankedClosed(p, h0);
    RanNone(env, h0, into, from);
    CoveredNone(p, h0, h0, from, into);
    var i := 0;
    while i < |from.ops|
      invariant Sound(env, p, Now(p), facts) && Grown(p, h0, Now(p), facts) && SameAbove(p, h0, Now(p), into)
      invariant from.ops == links == h0[from].ops && i <= |links|
      invariant Covered(p, h0, Now(p), from, into, i)
      invariant Closed(Now(p)) && Ran(env, h0, Now(p), into, from, i, fuel)
      decreases |links| - i
    {
      ghost var h := Now(p);
      ChildBelow(env, p, h, facts, from, i);
      var ok, f := MergeEntry(env, into, from.ops[i], p, facts);
      GrownTransitive(p, h0, h, Now(p), facts);
      CoveredStep(p, h0, h, Now(p), facts, from, into, i);
      RankedClosed(p, Now(p));
      RanStep(env, h0, h, Now(p), into, from, i, fuel, f);
      fuel := fuel + f + 1;
      i := i + 1;
    }
    RanAll(env, h0, Now(p), into, from, i, fuel);
  }

  /** `into` reaches what the first n links of `from` reached. */
  ghost predicate Covered(p: Shape, h0: Heap, h: Heap, from: Timestamp, into: Timestamp, n: nat)
    requires Ranked(p, h0) && Ranked(p, h) && from in p.nodes && into in p.nodes
  {
    && n <= |h0[from].ops|
    && forall j :: 0 <= j < n ==> Reach(p, h0, h0[from].ops[j].stamp) <= Reach(p, h, into)
  }

  lemma CoveredNone(p: Shape, h0: Heap, h: Heap, from: Timestamp, into: Timestamp)
    requires Ranked(p, h0) && Ranked(p, h) && from in p.nodes && into in p.nodes
    ensures Covered(p, h0, h, from, into, 0)
  {
  }

  lemma CoveredStep(p: Shape, h0: Heap, h: Heap, h': Heap, facts: set<Reached>, from: Timestamp, into: Timestamp,
      n: nat)
    requires Ranked(p, h0) && Ranked(p, h) && Ranked(p, h') && from in p.nodes && into in p.nodes
    requires Covered(p, h0, h, from, into, n) && n < |h0[from].ops|
    requires Grown(p, h0, h, facts) && Grown(p, h, h', facts)
    requires Reach(p, h, h0[from].ops[n].stamp) <= Reach(p, h', into)
    ensures Covered(p, h0, h', from, into, n + 1)
  {
    hide Reach;
    ReachGrows(p, h, h', facts, into);
    ReachGrows(p, h0, h, facts, h0[from].ops[n].stamp);
  }

  lemma GrownNot(p: Shape, h: Heap, facts: set<Reached>)
    requires p.nodes <= h.Keys
    ensures Grown(p, h, h, facts)
  {
  }

  lemma ReachCovered(p: Shape, h0: Heap, h1: Heap, h: Heap, facts: set<Reached>, from: Timestamp, into: Timestamp)
    requires Ranked(p, h0) && Ranked(p, h1) && Ranked(p, h) && from in p.nodes && into in p.nodes
    requires Grown(p, h0, h1, facts) && Grown(p, h1, h, facts) && h1[from].ops == h0[from].ops
    requires Own(from, h0[from]) <= Own(into, h1[into]) && Covered(p, h1, h, from, into, |h1[from].ops|)
    ensures Reach(p, h0, from) <= Reach(p, h, into)
  {
    forall y | y in Reach(p, h0, from)
      ensures y in Reach(p, h, into)
    {
      if y in Own(from, h0[from]) {
        assert y in Own(into, h1[into]);
      } else {
        var j :| 0 <= j < |h0[from].ops| && y in Reach(p, h0, h0[from].ops[j].stamp);
        ReachGrows(p, h0, h1, facts, h0[from].ops[j].stamp);
      }
    }
  }

  /** Following the links with these numbers leads from one object to another. */
  ghost predicate Leads(h: Heap, x: Timestamp, way: seq<nat>, y: Timestamp)
    decreases |way|
  {
    if way == [] then x == y
    else x in h && way[0] < |h[x].ops| && Leads(h, h[x].ops[way[0]].stamp, way[1..], y)
  }

  ghost predicate LeadsTo(h: Heap, x: Timestamp, y: Timestamp) {
    exists way :: Leads(h, x, way, y)
  }

  lemma LeadsOn(h: Heap, x: Timestamp, i: nat, y: Timestamp)
    requires x in h && i < |h[x].ops| && LeadsTo(h, h[x].ops[i].stamp, y)
    ensures LeadsTo(h, x, y)
  {
    var way :| Leads(h, h[x].ops[i].stamp, way, y);
    assert ([i] + way)[1..] == way;
    assert Leads(h, x, [i] + way, y);
  }

  lemma LeadsNowhere(h: Heap, x: Timestamp)
    ensures LeadsTo(h, x, x)
  {
    assert Leads(h, x, [], x);
  }

  lemma {:induction false} RankFalls(p: Shape, h: Heap, x: Timestamp, way: seq<nat>, y: Timestamp)
    requires Ranked(p, h) && Leads(h, x, way, y) && x in p.nodes
    ensures y in p.nodes && p.rank[y] <= p.rank[x]
    decreases |way|
  {
    if way != [] {
      RankFalls(p, h, h[x].ops[way[0]].stamp, way[1..], y);
    }
  }

  lemma {:induction false} LeadsStill(h: Heap, into: Timestamp, e: Link, x: Timestamp, way: seq<nat>, y: Timestamp)
    requires into in h && Leads(h, x, way, y)
    ensures Leads(WithLink(h, into, e), x, way, y)
    decreases |way|
  {
    if way != [] {
      LeadsStill(h, into, e, h[x].ops[way[0]].stamp, way[1..], y);
    }
  }

  /** That levels agree matters: once a link is taken over the objects can be ranked, that is, have no
      cycle, exactly when it does not lead back, as it does when an object is merged into one below it. */
  lemma TakingOverExact(p: Shape, h: Heap, into: Timestamp, e: Link) returns (rank: map<Timestamp, nat>)
    requires Ranked(p, h) && into in p.nodes && e.stamp in p.nodes
    ensures !LeadsTo(h, e.stamp, into) <==> Ranked(p.(rank := rank), WithLink(h, into, e))
    ensures LeadsTo(h, e.stamp, into) ==> forall other :: !Ranked(p.(rank := other), WithLink(h, into, e))
  {
    hide LeadsTo;
    rank := map x | x in p.nodes :: if LeadsTo(h, x, into) then p.rank[x] + p.rank[e.stamp] + 1 else p.rank[x];
    if LeadsTo(h, e.stamp, into) {
      forall other
        ensures !Ranked(p.(rank := other), WithLink(h, into, e))
      {
        LeadingBackCloses(p.(rank := other), h, into, e);
      }
    } else {
      LiftedRanks(p, h, into, e, rank);
    }
  }

  lemma LeadingBackCloses(p: Shape, h: Heap, into: Timestamp, e: Link)
    requires into in p.nodes && into in h && LeadsTo(h, e.stamp, into)
    ensures !Ranked(p, WithLink(h, into, e))
  {
    var h' := WithLink(h, into, e);
    var way :| Leads(h, e.stamp, way, into);
    LeadsStill(h, into, e, e.stamp, way, into);
    assert h'[into].ops[|h[into].ops|] == e;
    if Ranked(p, h') {
      RankFalls(p, h', e.stamp, way, into);
    }
  }

  lemma LiftedRanks(p: Shape, h: Heap, into: Timestamp, e: Link, rank: map<Timestamp, nat>)
    requires Ranked(p, h) && into in p.nodes && e.stamp in p.nodes && !LeadsTo(h, e.stamp, into)
    requires rank == map x | x in p.nodes :: if LeadsTo(h, x, into) then p.rank[x] + p.rank[e.stamp] + 1 else p.rank[x]
    ensures Ranked(p.(rank := rank), WithLink(h, into, e))
  {
    hide LeadsTo;
    var h' := WithLink(h, into, e);
    LeadsNowhere(h, into);
    forall x, i | x in p.nodes && 0 <= i < |h'[x].ops|
      ensures h'[x].ops[i].stamp in p.nodes && rank[h'[x].ops[i].stamp] < rank[x]
    {
      if i < |h[x].ops| {
        assert h'[x].ops[i] == h[x].ops[i];
        if LeadsTo(h, h[x].ops[i].stamp, into) {
          LeadsOn(h, x, i, into);
        }
      }
    }
  }

  // ---------------------------------------------------------------- splice

  /** Is a node about these bytes at or below x? */
  ghost predicate Has(p: Shape, h: Heap, x: Timestamp, msg: Bytes)
    requires Ranked(p, h) && x in p.nodes
    decreases p.rank[x]
  {
    x.msg == msg || exists i :: 0 <= i < |h[x].ops| && Has(p, h, h[x].ops[i].stamp, msg)
  }

  lemma {:induction false} HasGrows(p: Shape, h: Heap, h': Heap, facts: set<Reached>, x: Timestamp, msg: Bytes)
    requires Ranked(p, h) && Ranked(p, h') && Grown(p, h, h', facts) && x in p.nodes && Has(p, h, x, msg)
    ensures Has(p, h', x, msg)
    decreases p.rank[x]
  {
    if x.msg != msg {
      var i :| 0 <= i < |h[x].ops| && Has(p, h, h[x].ops[i].stamp, msg);
      HasGrows(p, h, h', facts, h[x].ops[i].stamp, msg);
      assert h'[x].ops[i] == h[x].ops[i];
    }
  }

  /** A node to be spliced: not of the graft, and on its level. */
  ghost predicate Spot(p: Shape, graft: Timestamp, x: Timestamp)
    requires Layered(p) && graft in p.graft
  {
    x in p.below - p.graft && x.msg == graft.msg && p.level[x] == p.level[graft]
  }

  /** The walk comes to what lies below the spliced nodes only through them. */
  ghost predicate Ready(p: Shape, h: Heap, graft: Timestamp) {
    && Layered(p) && p.nodes <= h.Keys && graft in p.graft
    && (forall x :: x in p.nodes - p.below ==> x.msg != graft.msg)
    && (forall x, i :: x in p.nodes - p.below && 0 <= i < |h[x].ops| && h[x].ops[i].stamp in p.below ==>
      Spot(p, graft, h[x].ops[i].stamp))
  }

  lemma StepOutside(env: Env, p: Shape, h: Heap, facts: set<Reached>, graft: Timestamp, x: Timestamp, i: nat)
    requires Sound(env, p, h, facts) && Ready(p, h, graft) && x in p.nodes - p.below && i < |h[x].ops|
    ensures var next := h[x].ops[i].stamp;
      next in p.nodes && p.rank[next] < p.rank[x] && (next in p.below ==> Spot(p, graft, next))
  {
  }

  lemma OutsideStays(p: Shape, h: Heap, h': Heap, facts: set<Reached>, graft: Timestamp)
    requires Ready(p, h, graft) && Grown(p, h, h', facts)
    ensures Ready(p, h', graft) && forall x :: x in p.nodes - p.below ==> h'[x] == h[x]
  {
  }

  lemma OutsideIsNoSpot(p: Shape, h: Heap, graft: Timestamp, x: Timestamp)
    requires Ready(p, h, graft) && x in p.nodes && (x in p.below ==> Spot(p, graft, x))
    ensures graft in p.graft && (x.msg == graft.msg <==> x in p.below)
  {
  }

  /** How far the walk has come: after the first n links of x. */
  ghost predicate Walked(p: Shape, h0: Heap, h: Heap, facts: set<Reached>, x: Timestamp, msg: Bytes, n: nat)
    requires Ranked(p, h0) && Ranked(p, h) && x in p.nodes
  {
    && n <= |h0[x].ops|
    && if exists j :: 0 <= j < n && Has(p, h0, h0[x].ops[j].stamp, msg) then facts <= Reach(p, h, x) else h == h0
  }

  lemma WalkStep(p: Shape, h0: Heap, h: Heap, h': Heap, facts: set<Reached>, x: Timestamp, msg: Bytes, n: nat)
    requires Ranked(p, h0) && Ranked(p, h) && Ranked(p, h') && x in p.nodes && h0[x] == h[x] == h'[x] && n < |h0[x].ops|
    requires Grown(p, h0, h, facts) && Grown(p, h, h', facts) && Walked(p, h0, h, facts, x, msg, n)
    requires var next := h0[x].ops[n].stamp;
      if Has(p, h, next, msg) then facts <= Reach(p, h', next) else h' == h
    ensures Walked(p, h0, h', facts, x, msg, n + 1)
  {
    hide Reach, Has, Grown;
    var next := h0[x].ops[n].stamp;
    if Has(p, h0, next, msg) {
      HasGrows(p, h0, h, facts, next, msg);
    }
    ReachGrows(p, h, h', facts, x);
    ReachChild(p, h', x, n);
  }

  lemma WalkedNone(p: Shape, h: Heap, facts: set<Reached>, x: Timestamp, msg: Bytes)
    requires Ranked(p, h) && x in p.nodes
    ensures Walked(p, h, h, facts, x, msg, 0)
  {
  }

  lemma WalkedAll(p: Shape, h0: Heap, h: Heap, facts: set<Reached>, x: Timestamp, msg: Bytes)
    requires Ranked(p, h0) && Ranked(p, h) && x in p.nodes && x.msg != msg &&
      Walked(p, h0, h, facts, x, msg, |h0[x].ops|)
    ensures if Has(p, h0, x, msg) then facts <= Reach(p, h, x) else h == h0
  {
    hide Reach;
  }

  /** spliceAt: never throws; if a node about the graft's message is there, the walk's start reaches
      all the graft reached, and otherwise nothing is touched. */
  method SpliceShared(env: Env, stamp: Timestamp, graft: Timestamp, ghost p: Shape, ghost facts: set<Reached>)
    returns (ok: bool, ghost fuel: nat)
    requires Sound(env, p, Now(p), facts) && Ready(p, Now(p), graft) && facts <= Reach(p, Now(p), graft)
    requires stamp in p.nodes && (stamp in p.below ==> Spot(p, graft, stamp))
    modifies p.below
    ensures ok && Sound(env, p, Now(p), facts) && Grown(p, old(Now(p)), Now(p), facts)
    ensures if Has(p, old(Now(p)), stamp, graft.msg) then facts <= Reach(p, Now(p), stamp) else Now(p) == old(Now(p))
    ensures Closed(old(Now(p))) && graft in p.nodes && SpliceRun(env, old(Now(p)), stamp, graft, fuel) == Done(Now(p))
    decreases p.rank[stamp]
  {
    hide Ranked, Derived, Graded, Says, Grown, Reach, Has, Ready, Walked, Closed, WalkRun, WalkRan, MergeRun;
    ghost var h0 := Now(p);
    GrownNot(p, h0, facts);
    RankedClosed(p, h0);
    OutsideIsNoSpot(p, h0, graft, stamp);
    if stamp.msg == graft.msg {
      ok, fuel := MergeShared(env, stamp, graft, p, facts);
      fuel := fuel + 1;
      HasItself(p, h0, stamp);
      return;
    }
    ghost var used: nat := 0;
    WalkRanNone(env, h0, stamp, graft);
    WalkedNone(p, h0, facts, stamp, graft.msg);
    var i := 0;
    while i < |stamp.ops|
      invariant Sound(env, p, Now(p), facts) && Grown(p, h0, Now(p), facts)
      invariant stamp.ops == h0[stamp].ops && i <= |stamp.ops| && Walked(p, h0, Now(p), facts, stamp, graft.msg, i)
      invariant Closed(Now(p)) && WalkRan(env, h0, Now(p), stamp, graft, i, used)
      decreases |h0[stamp].ops| - i
    {
      ghost var h := Now(p);
      OutsideStays(p, h0, h, facts, graft);
      StepOutside(env, p, h, facts, graft, stamp, i);
      ReachGrows(p, h0, h, facts, graft);
      ghost var f: nat;
      ok, f := SpliceShared(env, stamp.ops[i].stamp, graft, p, facts);
      OutsideStays(p, h, Now(p), facts, graft);
      GrownTransitive(p, h0, h, Now(p), facts);
      WalkStep(p, h0, h, Now(p), facts, stamp, graft.msg, i);
      RankedClosed(p, Now(p));
      WalkRanStep(env, h0, h, Now(p), stamp, graft, i, used, f);
      used := used + f + 1;
      i := i + 1;
    }
    WalkedAll(p, h0, Now(p), facts, stamp, graft.msg);
    WalkRanAll(env, h0, Now(p), stamp, graft, i, used);
    ok, fuel := true, used + 1;
  }

  lemma HasItself(p: Shape, h: Heap, x: Timestamp)
    requires Ranked(p, h) && x in p.nodes
    ensures Has(p, h, x, x.msg)
  {
  }

  // ---------------------------------------------------------------- proofs as they are parsed

  /** What holds of a tree holds of this part of it. */
  ghost predicate PartOf(env: Env, x: Stamp, t: Stamp) {
    (Mergeable(env, t) ==> Mergeable(env, x)) && forall y :: y in Reachable(x) ==> y in Reachable(t)
  }

  lemma BranchIsPart(env: Env, t: Stamp, i: nat)
    requires i < |t.ops|
    ensures PartOf(env, t.ops[i].stamp, t) && Height(t.ops[i].stamp) < Height(t)
  {
    hide ReachableAll, Keyed, ApplyOp;
    assert t.ops[i] in t.ops && BranchHeight(t.ops[i]) <= MaxHeight(t.ops);
    assert Mergeable(env, t) ==> Fits(env, t.msg, t.ops[i]);
    forall y | y in Reachable(t.ops[i].stamp)
      ensures y in Reachable(t)
    {
      ReachableAllMember(t.ops, y);
      assert y in ReachableUnder(t.ops[i]);
    }
  }

  /** Levels for some objects of a tree, closed under links. */
  ghost predicate Leveled(env: Env, t: Stamp, top: int, m: map<Timestamp, int>)
    reads m.Keys, set x, y | x in m && y in x.repr :: y
  {
    && (forall x :: x in m ==>
      x.Valid() && PartOf(env, x.value, t) && Height(x.value) <= m[x] - top + Height(t) && m[x] <= top)
    && (forall x, i :: x in m && 0 <= i < |x.ops| ==> x.ops[i].stamp in m && m[x.ops[i].stamp] == m[x] - 1)
    && LinkedOnce(m)
  }

  /** No object is linked twice. */
  ghost predicate LinkedOnce(m: map<Timestamp, int>)
    reads m.Keys
  {
    forall x, y, i, j ::
      x in m && y in m && 0 <= i < |x.ops| && 0 <= j < |y.ops| && x.ops[i].stamp == y.ops[j].stamp ==> x == y && i == j
  }

  lemma ValidChild(t: Timestamp, i: nat)
    requires t.Valid() && i < |t.ops|
    ensures var child := t.ops[i].stamp;
      && child.Valid() && child.repr < t.repr && t !in child.repr && t in t.repr
      && i < |t.value.ops| && t.value.ops[i].stamp == child.value
      && child in child.repr
      && forall j :: 0 <= j < |t.ops| && j != i ==> t.ops[j].stamp.repr !! child.repr
  {
  }

  /** Every object of a tree, with a level that falls by one along every link. */
  lemma {:induction false} Levels(env: Env, t: Timestamp, d: int) returns (m: map<Timestamp, int>)
    requires t.Valid()
    ensures t in m && m[t] == d && m.Keys <= t.repr && Leveled(env, t.value, d, m)
    decreases t.repr, |t.ops| + 1
  {
    hide PartOf, Height, Timestamp.Valid, Leveled;
    var below := LevelsBelow(env, t, |t.ops|, d);
    LeveledRoot(env, t, d, below);
    OfTheTree(t, below.Keys);
    m := below[t := d];
  }

  /** The levels below an object and its own make the levels of its tree. */
  lemma LeveledRoot(env: Env, t: Timestamp, d: int, below: map<Timestamp, int>)
    requires t.Valid() && t !in below && Leveled(env, t.value, d, below) && forall x :: x in below ==> below[x] < d
    requires forall j :: 0 <= j < |t.ops| ==> t.ops[j].stamp in below && below[t.ops[j].stamp] == d - 1
    ensures Leveled(env, t.value, d, below[t := d])
  {
    hide PartOf, Height, Timestamp.Valid;
    PartItself(env, t.value);
    var m := below[t := d];
    forall x, i | x in m && 0 <= i < |x.ops|
      ensures x.ops[i].stamp in m && m[x.ops[i].stamp] == m[x] - 1
    {
      if x != t {
        assert x in below;
        assert x.ops[i].stamp in below && x.ops[i].stamp != t;
      } else {
        assert x.ops[i].stamp in below && x.ops[i].stamp != t;
      }
    }
    LinkedOnceRoot(t, d, below);
  }

  lemma LinkedOnceRoot(t: Timestamp, d: int, below: map<Timestamp, int>)
    requires t.Valid() && t !in below && LinkedOnce(below) && forall x :: x in below ==> below[x] < d
    requires forall x, i :: x in below && 0 <= i < |x.ops| ==>
      x.ops[i].stamp in below && below[x.ops[i].stamp] == below[x] - 1
    requires forall j :: 0 <= j < |t.ops| ==> t.ops[j].stamp in below && below[t.ops[j].stamp] == d - 1
    ensures LinkedOnce(below[t := d])
  {
    hide Timestamp.Valid;
    forall i: nat, j: nat | i < |t.ops| && j < |t.ops| && t.ops[i].stamp == t.ops[j].stamp
      ensures i == j
    {
      ValidChild(t, i);
      ValidChild(t, j);
    }
  }

  lemma OfTheTree(t: Timestamp, below: set<Timestamp>)
    requires t.Valid()
    requires forall x :: x in below ==> exists j :: 0 <= j < |t.ops| && x in t.ops[j].stamp.repr
    ensures below + {t} <= t.repr
  {
    hide Timestamp.Valid;
    ValidItself(t);
    forall x | x in below
      ensures x in t.repr
    {
      var j: nat :| j < |t.ops| && x in t.ops[j].stamp.repr;
      ValidChild(t, j);
    }
  }

  lemma ValidItself(t: Timestamp)
    requires t.Valid()
    ensures t in t.repr
  {
  }

  lemma PartItself(env: Env, t: Stamp)
    ensures PartOf(env, t, t)
  {
  }

  lemma {:induction false} LevelsBelow(env: Env, t: Timestamp, n: nat, d: int) returns (m: map<Timestamp, int>)
    requires t.Valid() && n <= |t.ops|
    ensures t !in m && Leveled(env, t.value, d, m) && forall x :: x in m ==> m[x] < d
    ensures forall x :: x in m ==> exists j :: 0 <= j < n && x in t.ops[j].stamp.repr
    ensures forall j :: 0 <= j < n ==> t.ops[j].stamp in m && m[t.ops[j].stamp] == d - 1
    decreases t.repr, n
  {
    hide PartOf, Height, Timestamp.Valid;
    if n == 0 {
      m := map[];
    } else {
      var child := t.ops[n - 1].stamp;
      ValidChild(t, n - 1);
      var others := LevelsBelow(env, t, n - 1, d);
      var these := Levels(env, child, d - 1);
      BranchIsPart(env, t.value, n - 1);
      LeveledHigher(env, child.value, t.value, d, these);
      assert others.Keys !! these.Keys;
      m := others + these;
      LeveledUnion(env, t.value, d, others, these);
    }
  }

  lemma LeveledHigher(env: Env, child: Stamp, t: Stamp, d: int, m: map<Timestamp, int>)
    requires Leveled(env, child, d - 1, m) && PartOf(env, child, t) && Height(child) < Height(t)
    ensures Leveled(env, t, d, m) && forall x :: x in m ==> m[x] < d
  {
    hide PartOf, Height, Timestamp.Valid;
    forall x | x in m
      ensures PartOf(env, x.value, t)
    {
      PartTransitive(env, x.value, child, t);
    }
  }

  lemma LeveledUnion(env: Env, t: Stamp, d: int, a: map<Timestamp, int>, b: map<Timestamp, int>)
    requires Leveled(env, t, d, a) && Leveled(env, t, d, b) && a.Keys !! b.Keys
    ensures Leveled(env, t, d, a + b)
  {
    hide PartOf, Height, Timestamp.Valid;
  }

  lemma PartTransitive(env: Env, x: Stamp, y: Stamp, z: Stamp)
    requires PartOf(env, x, y) && PartOf(env, y, z)
    ensures PartOf(env, x, z)
  {
  }

  /** Levels for the objects at or below the topmost nodes about `msg`, which are on level d. */
  ghost predicate Topmost(n: map<Timestamp, int>, msg: Bytes, d: int, m: map<Timestamp, int>)
    reads n.Keys
  {
    && m.Keys <= n.Keys
    && (forall x, i :: x in m && 0 <= i < |x.ops| ==> x.ops[i].stamp in m && m[x.ops[i].stamp] == m[x] - 1)
    && (forall x :: x in n.Keys - m.Keys ==> x.msg != msg)
    && (forall x, i :: x in n.Keys - m.Keys && 0 <= i < |x.ops| && x.ops[i].stamp in m ==>
          x.ops[i].stamp.msg == msg && m[x.ops[i].stamp] == d)
  }

  lemma {:induction false} Spots(env: Env, t: Timestamp, e: int, msg: Bytes, d: int)
    returns (n: map<Timestamp, int>, m: map<Timestamp, int>)
    requires t.Valid()
    ensures t in n && n[t] == e && n.Keys <= t.repr && Leveled(env, t.value, e, n)
    ensures Topmost(n, msg, d, m) && (t in m ==> t.msg == msg && m[t] == d)
    decreases t.repr, |t.ops| + 1
  {
    hide PartOf, Height, Timestamp.Valid, Leveled, Topmost;
    if t.msg == msg {
      n := Levels(env, t, e);
      m := map x | x in n :: n[x] - e + d;
      TopmostAll(env, t.value, n, e, msg, d, m);
    } else {
      var below;
      below, m := SpotsBelow(env, t, |t.ops|, e, msg, d);
      LeveledRoot(env, t, e, below);
      OfTheTree(t, below.Keys);
      TopmostRoot(t, below, e, msg, d, m);
      n := below[t := e];
    }
  }

  lemma TopmostAll(env: Env, t: Stamp, n: map<Timestamp, int>, e: int, msg: Bytes, d: int, m: map<Timestamp, int>)
    requires Leveled(env, t, e, n) && m == map x | x in n :: n[x] - e + d
    ensures Topmost(n, msg, d, m)
  {
    hide PartOf, Height, Timestamp.Valid;
  }

  lemma TopmostRoot(t: Timestamp, below: map<Timestamp, int>, e: int, msg: Bytes, d: int, m: map<Timestamp, int>)
    requires t !in below && t.msg != msg && Topmost(below, msg, d, m)
    requires forall j :: 0 <= j < |t.ops| && t.ops[j].stamp in m ==> t.ops[j].stamp.msg == msg && m[t.ops[j].stamp] == d
    ensures Topmost(below[t := e], msg, d, m) && t !in m
  {
  }

  lemma {:induction false} SpotsBelow(env: Env, t: Timestamp, k: nat, e: int, msg: Bytes, d: int)
    returns (n: map<Timestamp, int>, m: map<Timestamp, int>)
    requires t.Valid() && k <= |t.ops|
    ensures t !in n && Leveled(env, t.value, e, n) && forall x :: x in n ==> n[x] < e
    ensures forall x :: x in n ==> exists j :: 0 <= j < k && x in t.ops[j].stamp.repr
    ensures forall j :: 0 <= j < k ==> t.ops[j].stamp in n && n[t.ops[j].stamp] == e - 1
    ensures Topmost(n, msg, d, m)
    ensures forall j :: 0 <= j < k && t.ops[j].stamp in m ==> t.ops[j].stamp.msg == msg && m[t.ops[j].stamp] == d
    decreases t.repr, k
  {
    hide PartOf, Height, Timestamp.Valid, Topmost, Leveled;
    if k == 0 {
      n, m := map[], map[];
      NoSpots(env, t.value, e, msg, d);
    } else {
      var child := t.ops[k - 1].stamp;
      ValidChild(t, k - 1);
      var others, spots := SpotsBelow(env, t, k - 1, e, msg, d);
      var these, mine := Spots(env, child, e - 1, msg, d);
      BranchIsPart(env, t.value, k - 1);
      LeveledHigher(env, child.value, t.value, e, these);
      assert others.Keys !! these.Keys;
      LeveledUnion(env, t.value, e, others, these);
      TopmostUnion(env, t.value, e, others, these, msg, d, spots, mine);
      n, m := others + these, spots + mine;
    }
  }

  lemma NoSpots(env: Env, t: Stamp, e: int, msg: Bytes, d: int)
    ensures Leveled(env, t, e, map[]) && Topmost(map[], msg, d, map[])
  {
  }

  lemma TopmostUnion(env: Env, t: Stamp, e: int, a: map<Timestamp, int>, b: map<Timestamp, int>, msg: Bytes, d: int,
                     p: map<Timestamp, int>, q: map<Timestamp, int>)
    requires Leveled(env, t, e, a) && Leveled(env, t, e, b) && a.Keys !! b.Keys
    requires Topmost(a, msg, d, p) && Topmost(b, msg, d, q)
    ensures Topmost(a + b, msg, d, p + q) && p.Keys <= a.Keys && q.Keys <= b.Keys
    ensures forall x :: x in a ==> (x in p + q <==> x in p) && (x in p ==> (p + q)[x] == p[x])
    ensures forall x :: x in b ==> (x in p + q <==> x in q) && (x in q ==> (p + q)[x] == q[x])
  {
    hide PartOf, Height, Timestamp.Valid;
  }

  lemma ValidHeight(env: Env, t: Timestamp, i: nat)
    requires t.Valid() && i < |t.ops|
    ensures Height(t.ops[i].stamp.value) < Height(t.value)
  {
    hide PartOf, Height;
    BranchIsPart(env, t.value, i);
  }

  /** What is reached on the heap is what the tree reaches. */
  lemma {:induction false} TreeReach(p: Shape, x: Timestamp, y: Reached)
    requires Ranked(p, Now(p)) && x in p.nodes && x.Valid()
    ensures y in Reach(p, Now(p), x) <==> y in Reachable(x.value)
    decreases p.rank[x]
  {
    hide ReachableAll;
    forall i | 0 <= i < |x.ops|
      ensures y in Reach(p, Now(p), x.ops[i].stamp) <==> y in ReachableUnder(x.value.ops[i])
    {
      assert Now(p)[x].ops[i] == x.ops[i];
      TreeReach(p, x.ops[i].stamp, y);
    }
    ReachableAllMember(x.value.ops, y);
  }

  lemma {:induction false} AnyContainsMember(ops: seq<Branch>, msg: Bytes)
    ensures AnyContains(ops, msg) <==> exists i :: 0 <= i < |ops| && BranchContains(ops[i], msg)
    decreases |ops|
  {
    hide BranchContains;
    if ops != [] {
      AnyContainsMember(ops[1..], msg);
      assert forall i :: 0 < i < |ops| ==> ops[i] == ops[1..][i - 1];
      if AnyContains(ops[1..], msg) {
        var i :| 0 <= i < |ops[1..]| && BranchContains(ops[1..][i], msg);
        assert BranchContains(ops[i + 1], msg);
      }
    }
  }

  lemma {:induction false} TreeHas(p: Shape, x: Timestamp, msg: Bytes)
    requires Ranked(p, Now(p)) && x in p.nodes && x.Valid()
    ensures Has(p, Now(p), x, msg) <==> Contains(x.value, msg)
    decreases p.rank[x]
  {
    hide AnyContains;
    forall i | 0 <= i < |x.ops|
      ensures Has(p, Now(p), x.ops[i].stamp, msg) <==> BranchContains(x.value.ops[i], msg)
    {
      assert Now(p)[x].ops[i] == x.ops[i];
      TreeHas(p, x.ops[i].stamp, msg);
    }
    AnyContainsMember(x.value.ops, msg);
  }

  /** The shape of two separate trees, from the levels of the one and of the spots in the other. */
  ghost function ShapeOf(n: map<Timestamp, int>, m: map<Timestamp, int>, g: map<Timestamp, int>, top: nat): Shape
    reads n.Keys
    requires forall x :: x in g ==> g[x] >= 0
  {
    Shape(n.Keys + g.Keys, map x | x in n.Keys + g.Keys :: if x in g then g[x] as nat else top + Height(x.value),
          m.Keys + g.Keys, m + g, g.Keys)
  }

  ghost predicate Fitting(env: Env, root: Timestamp, graft: Timestamp, n: map<Timestamp, int>, m: map<Timestamp, int>,
      g: map<Timestamp, int>, top: nat)
    reads n.Keys, g.Keys, set x, y | x in n && y in x.repr :: y
    reads root, graft, set x, y | x in g && y in x.repr :: y
  {
    && n.Keys !! g.Keys && root in n && graft in g && g[graft] == top == Height(graft.value)
    && Leveled(env, root.value, 0, n) && Leveled(env, graft.value, top, g) && Topmost(n, graft.msg, top, m)
    && (root in m ==> root.msg == graft.msg && m[root] == top)
  }

  lemma FittingLayered(env: Env, root: Timestamp, graft: Timestamp, n: map<Timestamp, int>, m: map<Timestamp, int>,
      g: map<Timestamp, int>, top: nat)
    requires Fitting(env, root, graft, n, m, g, top)
    ensures (forall x :: x in g ==> g[x] >= 0) && Layered(ShapeOf(n, m, g, top))
  {
    hide PartOf, Timestamp.Valid;
  }

  lemma FittingRanked(env: Env, root: Timestamp, graft: Timestamp, n: map<Timestamp, int>, m: map<Timestamp, int>,
      g: map<Timestamp, int>, top: nat)
    requires Fitting(env, root, graft, n, m, g, top) && forall x :: x in g ==> g[x] >= 0
    ensures var p := ShapeOf(n, m, g, top); Ranked(p, Now(p))
  {
    hide PartOf, Height, Timestamp.Valid;
    var p := ShapeOf(n, m, g, top);
    forall x, i | x in p.nodes && 0 <= i < |x.ops|
      ensures x.ops[i].stamp in p.nodes && p.rank[x.ops[i].stamp] < p.rank[x]
    {
      if x in n {
        ValidHeight(env, x, i);
      }
    }
  }

  lemma FittingGraded(env: Env, root: Timestamp, graft: Timestamp, n: map<Timestamp, int>, m: map<Timestamp, int>,
      g: map<Timestamp, int>, top: nat)
    requires Fitting(env, root, graft, n, m, g, top) && (forall x :: x in g ==> g[x] >= 0) &&
      Layered(ShapeOf(n, m, g, top))
    ensures var p := ShapeOf(n, m, g, top);
      Graded(p, Now(p)) && Ready(p, Now(p), graft) && (root in p.below ==> Spot(p, graft, root))
  {
    hide PartOf, Height, Timestamp.Valid, Layered;
  }

  lemma FittingDerived(env: Env, root: Timestamp, graft: Timestamp, n: map<Timestamp, int>, m: map<Timestamp, int>,
      g: map<Timestamp, int>, top: nat)
    requires Fitting(env, root, graft, n, m, g, top) && forall x :: x in g ==> g[x] >= 0
    requires Mergeable(env, root.value) && Mergeable(env, graft.value)
    ensures var p := ShapeOf(n, m, g, top); Derived(env, p, Now(p))
  {
    hide Height, Timestamp.Valid, Keyed, ApplyOp, Reachable;
    var p := ShapeOf(n, m, g, top);
    forall x | x in p.nodes
      ensures forall i :: 0 <= i < |x.ops| ==> LinkFits(env, x.msg, x.ops[i])
      ensures forall a :: a in x.attestations ==> Keyed(env, a)
    {
      MergeableFits(env, x);
    }
  }

  lemma MergeableFits(env: Env, x: Timestamp)
    requires x.Valid() && Mergeable(env, x.value)
    ensures forall i :: 0 <= i < |x.ops| ==> LinkFits(env, x.msg, x.ops[i])
    ensures forall a :: a in x.attestations ==> Keyed(env, a)
  {
    hide Keyed, ApplyOp;
    forall i | 0 <= i < |x.ops|
      ensures LinkFits(env, x.msg, x.ops[i])
    {
      assert x.value.ops[i] in x.value.ops;
      assert Fits(env, x.value.msg, x.value.ops[i]);
    }
  }

  lemma FittingSays(env: Env, root: Timestamp, graft: Timestamp, n: map<Timestamp, int>, m: map<Timestamp, int>,
      g: map<Timestamp, int>, top: nat)
    requires Fitting(env, root, graft, n, m, g, top) && forall x :: x in g ==> g[x] >= 0
    requires var p := ShapeOf(n, m, g, top); Ranked(p, Now(p))
    ensures var p := ShapeOf(n, m, g, top); Says(p, Now(p), Reach(p, Now(p), graft))
  {
    hide Height, Timestamp.Valid, Reach, Ranked, Mergeable, Reachable;
    var p := ShapeOf(n, m, g, top);
    forall f, a | f in g && a in f.attestations
      ensures Reached(a, f.msg) in Reach(p, Now(p), graft)
    {
      OwnReached(f, a);
      assert PartOf(env, f.value, graft.value);
      TreeReach(p, graft, Reached(a, f.msg));
    }
  }

  lemma OwnReached(f: Timestamp, a: Attestation)
    requires f.Valid() && a in f.attestations
    ensures Reached(a, f.msg) in Reachable(f.value)
  {
  }

  /** A fresh graft and a parsed proof, however many nodes of it are about the graft's message, have the
      shape that makes splicing safe. */
  lemma ParsedShape(env: Env, root: Timestamp, graft: Timestamp) returns (p: Shape)
    requires root.Valid() && graft.Valid() && root.repr !! graft.repr
    requires Mergeable(env, root.value) && Mergeable(env, graft.value)
    ensures root in p.nodes && graft in p.graft * p.nodes && p.nodes <= root.repr + graft.repr && p.below <= p.nodes
    ensures Ranked(p, Now(p)) && Sound(env, p, Now(p), Reach(p, Now(p), graft)) && Ready(p, Now(p), graft)
    ensures root in p.below ==> Spot(p, graft, root)
  {
    hide PartOf, Height, Timestamp.Valid, Leveled, Topmost, Reach, Ranked, Derived, Graded, Says, Ready, Mergeable;
    var top := Height(graft.value);
    var g := Levels(env, graft, top);
    var n, m := Spots(env, root, 0, graft.msg, top);
    FittingLayered(env, root, graft, n, m, g, top);
    FittingRanked(env, root, graft, n, m, g, top);
    FittingGraded(env, root, graft, n, m, g, top);
    FittingDerived(env, root, graft, n, m, g, top);
    FittingSays(env, root, graft, n, m, g, top);
    p := ShapeOf(n, m, g, top);
  }

  /** spliceAt on a parsed proof, in place, at any number of nodes that then share the graft: it never
      throws, every message stays derived, nothing becomes cyclic, and the proof reaches exactly what it
      reached before and, if it has a node about the graft's message, what the graft reaches. */
  method SpliceAt(env: Env, root: Timestamp, graft: Timestamp) returns (ok: bool, ghost p: Shape, ghost fuel: nat)
    requires root.Valid() && graft.Valid() && root.repr !! graft.repr
    requires Mergeable(env, root.value) && Mergeable(env, graft.value)
    modifies root.repr, graft.repr
    ensures ok && root in p.nodes && Ranked(p, Now(p)) && Derived(env, p, Now(p))
    ensures forall y :: y in Reach(p, Now(p), root) <==>
      || y in Reachable(old(root.value))
      || (Contains(old(root.value), graft.msg) && y in Reachable(old(graft.value)))
  {
    hide SpliceRun, Closed, Timestamp.Valid, Reach, Has, Ranked, Derived, Graded, Says, Ready, Mergeable, Grown,
      Reachable, Contains;
    p := ParsedShape(env, root, graft);
    ghost var h := Now(p);
    ghost var facts := Reach(p, h, graft);
    ghost var before, added := root.value, graft.value;
    TreeHas(p, root, graft.msg);
    forall y
      ensures y in Reach(p, h, root) <==> y in Reachable(before)
      ensures y in facts <==> y in Reachable(added)
    {
      TreeReach(p, root, y);
      TreeReach(p, graft, y);
    }
    ok, fuel := SpliceShared(env, root, graft, p, facts);
    ReachGrows(p, h, Now(p), facts, root);
    ReachBounded(p, h, Now(p), facts, root);
  }
}
