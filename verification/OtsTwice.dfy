/**
  Two upgrades of one proof (src/phala/anchor.ts:560-599): the first graft is shared by two nodes, the second
  is then merged into what they share from two places at different depths, and closes a cycle.
 */
module OtsTwice {
  import opened Basics
  import opened OtsWire
  import opened OtsTree
  import opened OtsMerge
  import opened OtsHeap
  import opened OtsShared
  import opened OtsRun
  import opened OtsCycles

  // ---------------------------------------------------------------- runs that come to their end

  ghost predicate MergesTo(env: Env, h: Heap, into: Timestamp, from: Timestamp, h': Heap) {
    Closed(h) && into in h && from in h && exists fuel :: MergeRun(env, h, into, from, fuel) == Done(h')
  }

  ghost predicate SplicesTo(env: Env, h: Heap, stamp: Timestamp, graft: Timestamp, h': Heap) {
    Closed(h) && stamp in h && graft in h && exists fuel :: SpliceRun(env, h, stamp, graft, fuel) == Done(h')
  }

  ghost predicate WalksTo(env: Env, h: Heap, stamp: Timestamp, graft: Timestamp, i: nat, h': Heap) {
    Closed(h) && stamp in h && graft in h && exists fuel :: WalkRun(env, h, stamp, graft, i, fuel) == Done(h')
  }

  /** The heap after the attestations of `from` went into `into`. */
  ghost function Attested(env: Env, h: Heap, into: Timestamp, from: Timestamp): Heap
    requires into in h && from in h
  {
    h[into := Fields(MergeAttestations(env, h[into].attestations, h[from].attestations), h[into].ops)]
  }

  /** A single link whose key `into` does not have is taken over. */
  lemma MergePush(env: Env, h: Heap, into: Timestamp, from: Timestamp, e: Link)
    requires Closed(h) && into in h && from in h && into != from && into.msg == from.msg
    requires h[from].ops == [e] && h[into].ops == [] && e.stamp in h
    ensures MergesTo(env, h, into, from, WithLink(Attested(env, h, into, from), into, e))
  {
    hide WriteOp, MergeAttestations;
    var h1 := Attested(env, h, into, from);
    var h2 := WithLink(h1, into, e);
    assert EntryRun(env, h1, into, e, 1) == Done(h2);
    assert LoopRun(env, h2, into, from, 1, 1) == Done(h2);
    assert LoopRun(env, h1, into, from, 0, 2) == Done(h2);
    assert MergeRun(env, h, into, from, 3) == Done(h2);
  }

  /** A single link with the key of the only link of `into` is followed. */
  lemma MergeDown(env: Env, h: Heap, into: Timestamp, from: Timestamp, mine: Link, e: Link, h': Heap)
    requires Closed(h) && into in h && from in h && into.msg == from.msg
    requires h[from].ops == [e] && h[into].ops == [mine] && Key(mine) == Key(e) && mine.stamp in h && e.stamp in h
    requires MergesTo(env, Attested(env, h, into, from), mine.stamp, e.stamp, h') && from in h' && h'[from].ops == [e]
    ensures MergesTo(env, h, into, from, h')
  {
    hide Key, MergeAttestations;
    var h1 := Attested(env, h, into, from);
    var fuel: nat :| MergeRun(env, h1, mine.stamp, e.stamp, fuel) == Done(h');
    assert Find([mine], Key(e)) == Some(0);
    assert EntryRun(env, h1, into, e, fuel + 1) == Done(h');
    assert LoopRun(env, h', into, from, 1, fuel + 1) == Done(h');
    assert LoopRun(env, h1, into, from, 0, fuel + 2) == Done(h');
    assert MergeRun(env, h, into, from, fuel + 3) == Done(h');
  }

  lemma SpliceSpot(env: Env, h: Heap, stamp: Timestamp, graft: Timestamp, h': Heap)
    requires stamp.msg == graft.msg && MergesTo(env, h, stamp, graft, h')
    ensures SplicesTo(env, h, stamp, graft, h')
  {
    hide MergeRun;
    var fuel: nat :| MergeRun(env, h, stamp, graft, fuel) == Done(h');
    assert SpliceRun(env, h, stamp, graft, fuel + 1) == Done(h');
  }

  lemma SpliceWalk(env: Env, h: Heap, stamp: Timestamp, graft: Timestamp, h': Heap)
    requires stamp.msg != graft.msg && WalksTo(env, h, stamp, graft, 0, h')
    ensures SplicesTo(env, h, stamp, graft, h')
  {
    hide WalkRun;
    var fuel: nat :| WalkRun(env, h, stamp, graft, 0, fuel) == Done(h');
    assert SpliceRun(env, h, stamp, graft, fuel + 1) == Done(h');
  }

  lemma WalkEnd(env: Env, h: Heap, stamp: Timestamp, graft: Timestamp, i: nat)
    requires Closed(h) && stamp in h && graft in h && i >= |h[stamp].ops|
    ensures WalksTo(env, h, stamp, graft, i, h)
  {
    assert WalkRun(env, h, stamp, graft, i, 0) == Done(h);
  }

  lemma WalkOn(env: Env, h: Heap, stamp: Timestamp, graft: Timestamp, i: nat, h': Heap, h'': Heap)
    requires Closed(h) && stamp in h && graft in h && i < |h[stamp].ops|
    requires SplicesTo(env, h, h[stamp].ops[i].stamp, graft, h') && WalksTo(env, h', stamp, graft, i + 1, h'')
    ensures WalksTo(env, h, stamp, graft, i, h'')
  {
    hide SpliceRun, Closed;
    var f: nat :| SpliceRun(env, h, h[stamp].ops[i].stamp, graft, f) == Done(h');
    var g: nat :| WalkRun(env, h', stamp, graft, i + 1, g) == Done(h'');
    SpliceMore(env, h, h[stamp].ops[i].stamp, graft, f, f + g);
    WalkMore(env, h', stamp, graft, i + 1, g, f + g);
    assert WalkRun(env, h, stamp, graft, i, f + g + 1) == Done(h'');
  }

  // ---------------------------------------------------------------- the proof and its grafts

  /** A proof `root` with the nodes b, q and p; a first graft with a below it; a second one with f1, f2 and g
      below each other. */
  datatype Cast = Cast(
    root: Timestamp, b: Timestamp, q: Timestamp, p: Timestamp, first: Timestamp, a: Timestamp,
    second: Timestamp, f1: Timestamp, f2: Timestamp, g: Timestamp)

  const REV: Op := Op(OP_REVERSE, None)

  const L: Bytes := [0, 1]
  const M: Bytes := [1, 0]

  ghost predicate Different(c: Cast) {
    var all := [c.root, c.b, c.q, c.p, c.first, c.a, c.second, c.f1, c.f2, c.g];
    forall i, j :: 0 <= i < j < |all| ==> all[i] != all[j]
  }

  ghost predicate Messages(c: Cast) {
    && c.root.msg == [0]
    && c.q.msg == c.p.msg == c.first.msg == c.f1.msg == c.g.msg == L
    && c.b.msg == c.a.msg == c.second.msg == c.f2.msg == M
  }

  /** The proof and both grafts, each a tree, before anything is spliced. */
  ghost predicate Scene(c: Cast, h: Heap) {
    && Different(c) && Messages(c)
    && h.Keys == {c.root, c.b, c.q, c.p, c.first, c.a, c.second, c.f1, c.f2, c.g}
    && h[c.root].ops == [Link(Op(OP_PREPEND, Some([1])), c.b), Link(Op(OP_APPEND, Some([1])), c.p)]
    && h[c.b].ops == [Link(REV, c.q)] && h[c.q].ops == [] && h[c.p].ops == []
    && h[c.first].ops == [Link(REV, c.a)] && h[c.a].ops == []
    && h[c.second].ops == [Link(REV, c.f1)] && h[c.f1].ops == [Link(REV, c.f2)] && h[c.f2].ops == [Link(REV, c.g)] &&
      h[c.g].ops == []
  }

  lemma Apart(c: Cast)
    requires Different(c)
    ensures c.q !in {c.root, c.b, c.p, c.first, c.a, c.second, c.f1, c.f2, c.g}
    ensures c.p !in {c.root, c.b, c.q, c.first, c.a, c.second, c.f1, c.f2, c.g}
    ensures c.a !in {c.root, c.b, c.q, c.p, c.first, c.second, c.f1, c.f2, c.g}
    ensures c.b !in {c.root, c.q, c.p, c.first, c.a, c.second, c.f1, c.f2, c.g}
    ensures c.g !in {c.root, c.b, c.q, c.p, c.first, c.a, c.second, c.f1, c.f2}
  {
    var all := [c.root, c.b, c.q, c.p, c.first, c.a, c.second, c.f1, c.f2, c.g];
    assert forall i, j :: 0 <= i < j < |all| ==> all[i] != all[j];
    assert all[0] == c.root && all[1] == c.b && all[2] == c.q && all[3] == c.p && all[4] == c.first;
    assert all[5] == c.a && all[6] == c.second && all[7] == c.f1 && all[8] == c.f2 && all[9] == c.g;
  }

  /** Every message is derived by its link. */
  lemma SceneDerived(env: Env, c: Cast, h: Heap)
    requires Scene(c, h)
    ensures Closed(h) && forall x, i :: x in h && 0 <= i < |h[x].ops| ==> LinkFits(env, x.msg, h[x].ops[i])
  {
    assert Reverse(L) == M && Reverse(M) == L by {
      assert L[1..] == [1] && [1][1..] == [] && M[1..] == [0] && [0][1..] == [];
    }
    Apart(c);
    assert [1] + [0] == M && [0] + [1] == L;
  }

  /** After the first graft: q and p share a. */
  ghost predicate SharedScene(c: Cast, h: Heap) {
    && Different(c) && Messages(c)
    && h.Keys == {c.root, c.b, c.q, c.p, c.first, c.a, c.second, c.f1, c.f2, c.g}
    && h[c.root].ops == [Link(Op(OP_PREPEND, Some([1])), c.b), Link(Op(OP_APPEND, Some([1])), c.p)]
    && h[c.b].ops == [Link(REV, c.q)] && h[c.q].ops == [Link(REV, c.a)] && h[c.p].ops == [Link(REV, c.a)]
    && h[c.first].ops == [Link(REV, c.a)] && h[c.a].ops == []
    && h[c.second].ops == [Link(REV, c.f1)] && h[c.f1].ops == [Link(REV, c.f2)] && h[c.f2].ops == [Link(REV, c.g)] &&
      h[c.g].ops == []
  }

  lemma FirstGraft(env: Env, c: Cast, h: Heap) returns (h2: Heap)
    requires Scene(c, h)
    ensures SplicesTo(env, h, c.root, c.first, h2) && SharedScene(c, h2)
  {
    hide MergeAttestations, SplicesTo, WalksTo, MergesTo, Different;
    Apart(c);
    var e := Link(REV, c.a);
    var h1 := WithLink(Attested(env, h, c.q, c.first), c.q, e);
    h2 := WithLink(Attested(env, h1, c.p, c.first), c.p, e);
    MergePush(env, h, c.q, c.first, e);
    SpliceSpot(env, h, c.q, c.first, h1);
    WalkEnd(env, h1, c.b, c.first, 1);
    WalkOn(env, h, c.b, c.first, 0, h1, h1);
    SpliceWalk(env, h, c.b, c.first, h1);
    MergePush(env, h1, c.p, c.first, e);
    SpliceSpot(env, h1, c.p, c.first, h2);
    WalkEnd(env, h2, c.root, c.first, 2);
    WalkOn(env, h1, c.root, c.first, 1, h2, h2);
    WalkOn(env, h, c.root, c.first, 0, h1, h2);
    SpliceWalk(env, h, c.root, c.first, h2);
  }

  lemma SecondGraft(env: Env, c: Cast, h: Heap) returns (h2: Heap)
    requires SharedScene(c, h)
    ensures SplicesTo(env, h, c.root, c.second, h2) && !Acyclic(h2)
  {
    hide MergeAttestations, SplicesTo, WalksTo, MergesTo, Different, Acyclic, Key;
    Apart(c);
    var toQ, toA, toF1, toF2, toG := Link(REV, c.q), Link(REV, c.a), Link(REV, c.f1), Link(REV, c.f2), Link(REV, c.g);
    SameOpSameKey(toQ, toF1);
    SameOpSameKey(toA, toF2);
    SameOpSameKey(toG, toF1);
    // b, q and a take in the second graft, from b down
    var k1 := Attested(env, h, c.b, c.second);
    var k2 := Attested(env, k1, c.q, c.f1);
    var h1 := WithLink(Attested(env, k2, c.a, c.f2), c.a, toG);
    MergePush(env, k2, c.a, c.f2, toG);
    MergeDown(env, k1, c.q, c.f1, toA, toF2, h1);
    MergeDown(env, h, c.b, c.second, toQ, toF1, h1);
    SpliceSpot(env, h, c.b, c.second, h1);
    // below p the same a takes it in from its top
    var k3 := Attested(env, h1, c.a, c.second);
    h2 := WithLink(Attested(env, k3, c.g, c.f1), c.g, toF2);
    MergePush(env, k3, c.g, c.f1, toF2);
    MergeDown(env, h1, c.a, c.second, toG, toF1, h2);
    SpliceSpot(env, h1, c.a, c.second, h2);
    WalkEnd(env, h2, c.p, c.second, 1);
    WalkOn(env, h1, c.p, c.second, 0, h2, h2);
    SpliceWalk(env, h1, c.p, c.second, h2);
    WalkEnd(env, h2, c.root, c.second, 2);
    WalkOn(env, h1, c.root, c.second, 1, h2, h2);
    WalkOn(env, h, c.root, c.second, 0, h1, h2);
    SpliceWalk(env, h, c.root, c.second, h2);
    Closes(c, h2);
  }

  lemma SameOpSameKey(e: Link, e': Link)
    requires e.op == e'.op
    ensures Key(e) == Key(e')
  {
  }

  lemma Closes(c: Cast, h: Heap)
    requires c.f2 in h && c.g in h && h[c.f2].ops == [Link(REV, c.g)] && h[c.g].ops == [Link(REV, c.f2)]
    ensures !Acyclic(h)
  {
    assert Leads(h, c.f2, [], c.f2);
    LeadsCons(h, c.g, 0, [], c.f2);
    LeadsCons(h, c.f2, 0, [0], c.f2);
  }

  /** Both upgrades of this proof come to their end, and the second leaves a cycle: a graft may close one once
      an earlier graft is shared. */
  lemma SecondGraftCloses(env: Env, c: Cast, h: Heap) returns (h1: Heap, h2: Heap)
    requires Scene(c, h)
    ensures SplicesTo(env, h, c.root, c.first, h1) && SplicesTo(env, h1, c.root, c.second, h2) && !Acyclic(h2)
  {
    hide Acyclic, SplicesTo;
    h1 := FirstGraft(env, c, h);
    h2 := SecondGraft(env, c, h1);
  }
}
