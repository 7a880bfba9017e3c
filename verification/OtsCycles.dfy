/**
  When `merge` closes a cycle (src/phala/anchor.ts:428-445): always, if the object merged in leads to the one
  merged into; and never, where every object has a place that links respect.
 */
module OtsCycles {
  import opened Basics
  import opened OtsWire
  import opened OtsTree
  import opened OtsMerge
  import opened OtsHeap
  import opened OtsShared
  import opened OtsRun

  // ---------------------------------------------------------------- growth

  /** No object lost a link. */
  ghost predicate Extends(h: Heap, h': Heap) {
    h.Keys == h'.Keys && forall x :: x in h ==> h[x].ops <= h'[x].ops
  }

  lemma ExtendsTransitive(h: Heap, h': Heap, h'': Heap)
    requires Extends(h, h') && Extends(h', h'')
    ensures Extends(h, h'')
  {
  }

  lemma {:induction false} MergeExtends(env: Env, h: Heap, into: Timestamp, from: Timestamp, fuel: nat)
    requires Closed(h) && into in h && from in h && MergeRun(env, h, into, from, fuel).Done?
    ensures Extends(h, MergeRun(env, h, into, from, fuel).heap)
    decreases fuel, 0
  {
    var atts := MergeAttestations(env, h[into].attestations, h[from].attestations);
    var h1 := h[into := Fields(atts, h[into].ops)];
    LoopExtends(env, h1, into, from, 0, fuel - 1);
    ExtendsTransitive(h, h1, MergeRun(env, h, into, from, fuel).heap);
  }

  lemma {:induction false} LoopExtends(env: Env, h: Heap, into: Timestamp, from: Timestamp, i: nat, fuel: nat)
    requires Closed(h) && into in h && from in h && LoopRun(env, h, into, from, i, fuel).Done?
    ensures Extends(h, LoopRun(env, h, into, from, i, fuel).heap)
    decreases fuel, 1
  {
    hide EntryRun, MergeRun, Extends;
    if i < |h[from].ops| {
      EntryExtends(env, h, into, h[from].ops[i], fuel - 1);
      var h' := EntryRun(env, h, into, h[from].ops[i], fuel - 1).heap;
      LoopExtends(env, h', into, from, i + 1, fuel - 1);
      ExtendsTransitive(h, h', LoopRun(env, h, into, from, i, fuel).heap);
    } else {
      ExtendsItself(h);
    }
  }

  lemma ExtendsItself(h: Heap)
    ensures Extends(h, h)
  {
  }

  lemma {:induction false} EntryExtends(env: Env, h: Heap, into: Timestamp, e: Link, fuel: nat)
    requires Closed(h) && into in h && e.stamp in h && EntryRun(env, h, into, e, fuel).Done?
    ensures Extends(h, EntryRun(env, h, into, e, fuel).heap)
    decreases fuel, 2
  {
    match Find(h[into].ops, Key(e))
    case None =>
    case Some(k) => MergeExtends(env, h, h[into].ops[k].stamp, e.stamp, fuel - 1);
  }

  // ---------------------------------------------------------------- cycles

  /** By at least one link. */
  ghost predicate LeadsProperly(h: Heap, x: Timestamp, y: Timestamp) {
    exists way :: way != [] && Leads(h, x, way, y)
  }

  ghost predicate Acyclic(h: Heap) {
    forall x :: x in h ==> !LeadsProperly(h, x, x)
  }

  lemma {:induction false} LeadsExtends(h: Heap, h': Heap, x: Timestamp, way: seq<nat>, y: Timestamp)
    requires Extends(h, h') && Leads(h, x, way, y)
    ensures Leads(h', x, way, y)
    decreases |way|
  {
    if way != [] {
      LeadsExtends(h, h', h[x].ops[way[0]].stamp, way[1..], y);
    }
  }

  lemma {:induction false} LeadsSnoc(h: Heap, x: Timestamp, way: seq<nat>, y: Timestamp, i: nat)
    requires Leads(h, x, way, y) && y in h && i < |h[y].ops|
    ensures Leads(h, x, way + [i], h[y].ops[i].stamp)
    decreases |way|
  {
    if way == [] {
      assert (way + [i])[1..] == [];
    } else {
      LeadsSnoc(h, h[x].ops[way[0]].stamp, way[1..], y, i);
      assert (way + [i])[1..] == way[1..] + [i];
    }
  }

  lemma LeadsCons(h: Heap, x: Timestamp, i: nat, way: seq<nat>, y: Timestamp)
    requires x in h && i < |h[x].ops| && Leads(h, h[x].ops[i].stamp, way, y)
    ensures Leads(h, x, [i] + way, y) && LeadsProperly(h, x, y)
  {
    var longer := [i] + way;
    assert longer[1..] == way && longer != [];
    assert Leads(h, x, longer, y);
  }

  lemma CyclicStays(h: Heap, h': Heap)
    requires Extends(h, h') && !Acyclic(h)
    ensures !Acyclic(h')
  {
    var x :| x in h && LeadsProperly(h, x, x);
    var way :| way != [] && Leads(h, x, way, x);
    LeadsExtends(h, h', x, way, x);
  }

  /** If `from` leads to `into`, no run of merge comes to an end with objects free of cycles. */
  lemma {:induction false} AboveCloses(env: Env, h: Heap, into: Timestamp, from: Timestamp, fuel: nat)
    requires Closed(h) && into in h && from in h && LeadsProperly(h, from, into)
    ensures MergeRun(env, h, into, from, fuel).Done? ==> !Acyclic(MergeRun(env, h, into, from, fuel).heap)
    decreases fuel, 0
  {
    if MergeRun(env, h, into, from, fuel).Done? {
      var h1 := h[into := Fields(MergeAttestations(env, h[into].attestations, h[from].attestations), h[into].ops)];
      var way :| way != [] && Leads(h, from, way, into);
      LeadsExtends(h, h1, from, way, into);
      LoopCloses(env, h1, into, from, 0, way[0], way[1..], fuel - 1);
    }
  }

  lemma {:induction false} LoopCloses(env: Env, h: Heap, into: Timestamp, from: Timestamp, i: nat, j: nat,
      way: seq<nat>, fuel: nat)
    requires Closed(h) && into in h && from in h && i <= j < |h[from].ops| && Leads(h, h[from].ops[j].stamp, way, into)
    requires LoopRun(env, h, into, from, i, fuel).Done?
    ensures !Acyclic(LoopRun(env, h, into, from, i, fuel).heap)
    decreases fuel, 1
  {
    hide EntryRun, MergeRun, Find, LeadsProperly;
    var e := h[from].ops[i];
    var h' := EntryRun(env, h, into, e, fuel - 1).heap;
    EntryExtends(env, h, into, e, fuel - 1);
    LoopExtends(env, h', into, from, i + 1, fuel - 1);
    if i < j {
      LeadsExtends(h, h', h[from].ops[j].stamp, way, into);
      LoopCloses(env, h', into, from, i + 1, j, way, fuel - 1);
    } else {
      EntryCloses(env, h, into, e, way, fuel - 1);
      CyclicStays(h', LoopRun(env, h, into, from, i, fuel).heap);
    }
  }

  lemma {:induction false} EntryCloses(env: Env, h: Heap, into: Timestamp, e: Link, way: seq<nat>, fuel: nat)
    requires Closed(h) && into in h && e.stamp in h && Leads(h, e.stamp, way, into) &&
      EntryRun(env, h, into, e, fuel).Done?
    ensures !Acyclic(EntryRun(env, h, into, e, fuel).heap)
    decreases fuel, 2
  {
    match Find(h[into].ops, Key(e))
    case None =>
      var h' := WithLink(h, into, e);
      LeadsStill(h, into, e, e.stamp, way, into);
      assert h'[into].ops[|h[into].ops|] == e;
      LeadsCons(h', into, |h[into].ops|, way, into);
    case Some(k) =>
      LeadsSnoc(h, e.stamp, way, into, k);
      assert way + [k] != [];
      AboveCloses(env, h, h[into].ops[k].stamp, e.stamp, fuel - 1);
  }

  // ---------------------------------------------------------------- where objects stand

  /** Where an object stands: on a path that repeats the keys of `word`, in which round and where in it, or
      so many links beside that path. */
  datatype Tag = On(round: int, pos: nat) | Off(level: nat)

  /** The objects below `from`; tags of those that may be merged or merged into; the keys on the way from
      `into` to `from`; the objects that first matches meet from `into` along those keys, over and over; all
      keys; and a bound on tags. Without such a way the chain is empty and every tag is `Off`. */
  datatype Plan = Plan(
    side: set<Timestamp>, tag: map<Timestamp, Tag>, word: seq<Bytes>, chain: seq<Timestamp>, keys: set<Bytes>, top: nat)

  /** The order in which links lead: along the path, then beside it. */
  predicate Before(a: Tag, b: Tag) {
    match (a, b)
    case (On(r, i), On(s, j)) => r < s || (r == s && i < j)
    case (On(_, _), Off(_)) => true
    case (Off(_), On(_, _)) => false
    case (Off(l), Off(m)) => l < m
  }

  function Succ(word: seq<Bytes>, t: Tag): Tag
    requires t.On?
  {
    if t.pos + 1 == |word| then On(t.round + 1, 0) else On(t.round, t.pos + 1)
  }

  /** One round later. */
  function Later(t: Tag): Tag
    requires t.On?
  {
    On(t.round + 1, t.pos)
  }

  predicate InRange(word: seq<Bytes>, t: Tag) {
    match t case On(_, pos) => pos < |word| case Off(_) => true
  }

  predicate IsLast(p: Plan, x: Timestamp) {
    p.chain != [] && x == p.chain[|p.chain| - 1]
  }

  ghost predicate Static(p: Plan) {
    && p.side <= p.tag.Keys
    && (forall x :: x in p.tag ==> InRange(p.word, p.tag[x]))
    && (forall x :: x in p.side ==>
      match p.tag[x] case On(round, _) => round <= p.top case Off(level) => level <= p.top)
    && (p.chain != [] ==> p.chain[|p.chain| - 1] in p.side)
    && (forall x :: x in p.chain ==> x in p.tag && p.tag[x].On?)
    && (forall x :: x in p.chain && !IsLast(p, x) ==> Before(p.tag[x], p.tag[p.chain[|p.chain| - 1]]))
    && (forall x :: x in p.tag && p.tag[x].On? && x !in p.chain ==> x in p.side)
  }

  function Next(word: seq<Bytes>, t: Tag, key: Bytes): (r: Tag)
    requires InRange(word, t)
    ensures InRange(word, r)
  {
    match t
    case On(_, pos) => if key == word[pos] then Succ(word, t) else Off(pos + 1)
    case Off(level) => Off(level + 1)
  }

  /** The key that goes on along the path. */
  ghost predicate GoesOn(p: Plan, x: Timestamp, key: Bytes)
    requires Static(p) && x in p.tag
  {
    p.tag[x].On? && key == p.word[p.tag[x].pos]
  }

  /** The tag at the end of a link: the end of the chain may have taken over a link from one round later. */
  ghost function Ahead(p: Plan, x: Timestamp, key: Bytes): Tag
    requires Static(p) && x in p.tag
  {
    if IsLast(p, x) && GoesOn(p, x, key) then Later(Succ(p.word, p.tag[x])) else Next(p.word, p.tag[x], key)
  }

  /** No link has this key. */
  ghost predicate Lacks(ops: seq<Link>, key: Bytes) {
    forall k :: 0 <= k < |ops| ==> Key(ops[k]) != key
  }

  /** The link at i is the first with its key. */
  ghost predicate First(ops: seq<Link>, i: nat) {
    i < |ops| && Lacks(ops[..i], Key(ops[i]))
  }

  ghost predicate SideFits(p: Plan, h: Heap)
    requires Static(p) && p.tag.Keys <= h.Keys
  {
    forall x, i :: x in p.side && 0 <= i < |h[x].ops| ==>
      h[x].ops[i].stamp in p.side && p.tag[h[x].ops[i].stamp] == Ahead(p, x, Key(h[x].ops[i]))
  }

  ghost predicate FirstFits(p: Plan, h: Heap)
    requires Static(p) && p.tag.Keys <= h.Keys
  {
    forall x, i: nat :: x in p.tag && First(h[x].ops, i) ==>
      h[x].ops[i].stamp in p.tag && p.tag[h[x].ops[i].stamp] == Ahead(p, x, Key(h[x].ops[i]))
  }

  /** The chain is what first matches meet, and in the side nothing else leads into it. */
  ghost predicate ChainFits(p: Plan, h: Heap)
    requires Static(p) && p.tag.Keys <= h.Keys
  {
    && (forall x, i: nat :: x in p.chain && First(h[x].ops, i) && GoesOn(p, x, Key(h[x].ops[i])) ==>
          (h[x].ops[i].stamp in p.chain <==> !IsLast(p, x)))
    && (forall x :: x in p.chain && !IsLast(p, x) ==> !Lacks(h[x].ops, p.word[p.tag[x].pos]))
    && (forall x, i: nat :: x in p.side && i < |h[x].ops| && h[x].ops[i].stamp in p.chain ==>
      x in p.chain && First(h[x].ops, i))
  }

  ghost predicate KeysFit(env: Env, p: Plan, h: Heap) {
    forall x, i :: x in h && 0 <= i < |h[x].ops| ==> Key(h[x].ops[i]) in p.keys && LinkFits(env, x.msg, h[x].ops[i])
  }

  ghost predicate Fit(env: Env, p: Plan, h: Heap) {
    && Closed(h) && Static(p) && p.tag.Keys <= h.Keys
    && SideFits(p, h) && FirstFits(p, h) && ChainFits(p, h) && KeysFit(env, p, h)
  }

  /** The end of the chain has not taken over a link to go on. */
  ghost predicate Unjumped(p: Plan, h: Heap)
    requires Static(p) && p.tag.Keys <= h.Keys
  {
    p.chain != [] ==> var last := p.chain[|p.chain| - 1]; Lacks(h[last].ops, p.word[p.tag[last].pos])
  }

  /** A pair that merge may come to. */
  ghost predicate Pair(p: Plan, into: Timestamp, from: Timestamp)
    requires Static(p)
  {
    && into in p.tag && from in p.side && into.msg == from.msg
    && if into in p.chain then p.tag[from] == Later(p.tag[into])
       else p.tag[from] == p.tag[into] && (p.tag[into].On? ==> from !in p.chain)
  }

  /** Between two heaps only links into the side came in, each with a key its object did not have. */
  ghost predicate Evolved(p: Plan, h: Heap, h': Heap) {
    && Extends(h, h')
    && (forall x, i :: x in h && |h[x].ops| <= i < |h'[x].ops| ==>
          x in p.tag && h'[x].ops[i].stamp in p.side && Lacks(h[x].ops, Key(h'[x].ops[i])))
  }

  /** None of them leads onto the repeating path. */
  ghost predicate OnlyOff(p: Plan, h: Heap, h': Heap)
    requires Static(p) && Evolved(p, h, h')
  {
    forall x, i :: x in h && |h[x].ops| <= i < |h'[x].ops| ==> p.tag[h'[x].ops[i].stamp].Off?
  }

  // ---------------------------------------------------------------- one turn of the loop

  /** A turn of the loop: the link at i of `from`, with what must not have happened yet. */
  ghost predicate Turn(p: Plan, h: Heap, into: Timestamp, from: Timestamp, i: nat)
    requires Static(p) && p.tag.Keys <= h.Keys
  {
    && Pair(p, into, from) && i < |h[from].ops|
    && (IsLast(p, from) || h[from].ops[i].stamp in p.chain ==> Unjumped(p, h))
  }

  /** The link of a turn leads where its tag says, and from outside the chain not into it. */
  lemma TurnTag(env: Env, p: Plan, h: Heap, into: Timestamp, from: Timestamp, i: nat)
    requires Fit(env, p, h) && Turn(p, h, into, from, i)
    ensures var e := h[from].ops[i];
      && e.stamp in p.side && p.tag[e.stamp] == Next(p.word, p.tag[from], Key(e))
      && (e.stamp in p.chain ==> from in p.chain)
  {
    hide FirstFits, KeysFit, Closed, Key;
  }

  /** What the link means for `into`: taken over, it leads where a link of `into` with its key should. */
  lemma TurnAhead(env: Env, p: Plan, h: Heap, into: Timestamp, from: Timestamp, i: nat)
    requires Fit(env, p, h) && Turn(p, h, into, from, i)
    ensures var e := h[from].ops[i];
      && e.stamp in p.side && LinkFits(env, into.msg, e) && Key(e) in p.keys
      && (Lacks(h[into].ops, Key(e)) ==> p.tag[e.stamp] == Ahead(p, into, Key(e)) && e.stamp !in p.chain)
  {
    hide FirstFits, SideFits, Closed, Key;
    TurnTag(env, p, h, into, from, i);
  }

  lemma FirstSnoc(ops: seq<Link>, e: Link, i: nat)
    requires Lacks(ops, Key(e)) && i <= |ops|
    ensures First(ops + [e], i) <==> i == |ops| || First(ops, i)
  {
    hide Key;
    var all := ops + [e];
    assert all[..|ops|] == ops;
    if i < |ops| {
      assert all[..i] == ops[..i] && all[i] == ops[i];
    }
  }

  /** Taking over the link of a turn keeps every object where it stands. */
  lemma PushFits(env: Env, p: Plan, h: Heap, into: Timestamp, from: Timestamp, i: nat)
    requires Fit(env, p, h) && Turn(p, h, into, from, i) && Lacks(h[into].ops, Key(h[from].ops[i]))
    ensures var e := h[from].ops[i]; var h' := WithLink(h, into, e);
      Fit(env, p, h') && Evolved(p, h, h') && (p.tag[e.stamp].Off? ==> OnlyOff(p, h, h'))
  {
    hide Key, LinkFits, Static, Ahead, Lacks, SideFits, FirstFits, ChainFits, KeysFit, First;
    TurnInto(p, h, into, from, i);
    TurnAhead(env, p, h, into, from, i);
    var e := h[from].ops[i];
    var h' := WithLink(h, into, e);
    PushSide(env, p, h, into, e);
    StaticSide(p);
    PushFirst(env, p, h, into, e);
    PushChain(env, p, h, into, e);
    assert forall x, k :: x in h && |h[x].ops| <= k < |h'[x].ops| ==> x == into && h'[x].ops[k] == e;
  }

  lemma StaticSide(p: Plan)
    requires Static(p)
    ensures p.side <= p.tag.Keys
  {
  }

  lemma PushSide(env: Env, p: Plan, h: Heap, into: Timestamp, e: Link)
    requires Fit(env, p, h) && into in p.tag && e.stamp in p.side && p.tag[e.stamp] == Ahead(p, into, Key(e))
    requires Key(e) in p.keys && LinkFits(env, into.msg, e)
    ensures var h' := WithLink(h, into, e); SideFits(p, h') && KeysFit(env, p, h') && Closed(h')
  {
    hide Key, FirstFits, ChainFits, Ahead, LinkFits;
  }

  lemma PushFirst(env: Env, p: Plan, h: Heap, into: Timestamp, e: Link)
    requires Fit(env, p, h) && into in p.tag && e.stamp in p.tag && p.tag[e.stamp] == Ahead(p, into, Key(e))
    requires Lacks(h[into].ops, Key(e))
    ensures FirstFits(p, WithLink(h, into, e))
  {
    hide Key, SideFits, ChainFits, Ahead, KeysFit, Lacks, Closed;
    var h' := WithLink(h, into, e);
    forall x, k: nat | x in p.tag && k < |h'[x].ops| && First(h'[x].ops, k)
      ensures h'[x].ops[k].stamp in p.tag && p.tag[h'[x].ops[k].stamp] == Ahead(p, x, Key(h'[x].ops[k]))
    {
      if x == into {
        FirstSnoc(h[into].ops, e, k);
      }
    }
  }

  lemma TurnInto(p: Plan, h: Heap, into: Timestamp, from: Timestamp, i: nat)
    requires Static(p) && p.tag.Keys <= h.Keys && Turn(p, h, into, from, i)
    ensures into in p.tag && from in p.side && from in p.tag && into.msg == from.msg
  {
  }

  lemma PushChain(env: Env, p: Plan, h: Heap, into: Timestamp, e: Link)
    requires Fit(env, p, h) && into in p.tag && Lacks(h[into].ops, Key(e)) && e.stamp !in p.chain
    ensures ChainFits(p, WithLink(h, into, e))
  {
    hide Key, SideFits, FirstFits, KeysFit, Closed;
    var h' := WithLink(h, into, e);
    var n := |h[into].ops|;
    forall k: nat | k <= n ensures First(h'[into].ops, k) <==> k == n || First(h[into].ops, k) {
      FirstSnoc(h[into].ops, e, k);
    }
    forall x | x in p.chain && !IsLast(p, x)
      ensures !Lacks(h'[x].ops, p.word[p.tag[x].pos])
    {
      var k :| 0 <= k < |h[x].ops| && Key(h[x].ops[k]) == p.word[p.tag[x].pos];
      assert h'[x].ops[k] == h[x].ops[k];
    }
  }

  /** Otherwise merge goes down to the first match, and comes to such a pair again. */
  lemma DownPair(env: Env, p: Plan, h: Heap, into: Timestamp, from: Timestamp, i: nat, k: nat)
    requires Fit(env, p, h) && Turn(p, h, into, from, i)
    requires First(h[into].ops, k) && Key(h[into].ops[k]) == Key(h[from].ops[i])
    ensures var mine, theirs := h[into].ops[k].stamp, h[from].ops[i].stamp;
      Pair(p, mine, theirs) && (theirs in p.chain ==> Unjumped(p, h))
  {
    hide Key, SideFits, Closed, ApplyOp;
    TurnTag(env, p, h, into, from, i);
    SameMessage(env, p, h, into, k, from, i);
  }

  lemma SameMessage(env: Env, p: Plan, h: Heap, x: Timestamp, i: nat, y: Timestamp, j: nat)
    requires KeysFit(env, p, h) && x in h && y in h && x.msg == y.msg && i < |h[x].ops| && j < |h[y].ops|
    requires Key(h[x].ops[i]) == Key(h[y].ops[j])
    ensures h[x].ops[i].stamp.msg == h[y].ops[j].stamp.msg
  {
    hide ApplyOp, WriteOp;
    OpKey(h[x].ops[i].op, h[y].ops[j].op);
  }

  // ---------------------------------------------------------------- the run comes to its end

  /** The keys each object has no link for. */
  ghost function Missing(p: Plan, h: Heap): set<(Timestamp, Bytes)> {
    set x, k | x in h.Keys && k in p.keys && Lacks(h[x].ops, k) :: (x, k)
  }

  lemma SmallerSet<T>(a: set<T>, b: set<T>)
    requires a <= b
    ensures |a| <= |b| && (a != b ==> |a| < |b|)
  {
    assert b == a + (b - a);
    if a != b {
      var x :| x in b - a;
      assert |b - a| > 0;
    }
  }

  lemma MissingShrinks(env: Env, p: Plan, h: Heap, h': Heap, x: Timestamp)
    requires Evolved(p, h, h') && KeysFit(env, p, h') && x in h
    ensures |Missing(p, h')| <= |Missing(p, h)| && (|h'[x].ops| != |h[x].ops| ==> |Missing(p, h')| < |Missing(p, h)|)
  {
    hide Key;
    forall y, k | (y, k) in Missing(p, h')
      ensures (y, k) in Missing(p, h)
    {
      assert forall j :: 0 <= j < |h[y].ops| ==> h[y].ops[j] == h'[y].ops[j];
    }
    assert Missing(p, h') <= Missing(p, h);
    SmallerSet(Missing(p, h'), Missing(p, h));
    if |h'[x].ops| != |h[x].ops| {
      var e := h'[x].ops[|h[x].ops|];
      assert (x, Key(e)) in Missing(p, h) && (x, Key(e)) !in Missing(p, h');
    }
  }

  lemma EvolvedTransitive(p: Plan, h: Heap, h': Heap, h'': Heap)
    requires Static(p) && Evolved(p, h, h') && Evolved(p, h', h'')
    ensures Evolved(p, h, h'') && (OnlyOff(p, h, h') && OnlyOff(p, h', h'') ==> OnlyOff(p, h, h''))
  {
    hide Key, Lacks;
    ExtendsTransitive(h, h', h'');
    forall x, i | x in h && |h[x].ops| <= i < |h''[x].ops|
      ensures x in p.tag && h''[x].ops[i].stamp in p.side && Lacks(h[x].ops, Key(h''[x].ops[i]))
      ensures i < |h'[x].ops| ==> h''[x].ops[i] == h'[x].ops[i]
    {
      if i < |h'[x].ops| {
        assert h''[x].ops[i] == h'[x].ops[i];
      } else {
        LacksPrefix(h[x].ops, h'[x].ops, Key(h''[x].ops[i]));
      }
    }
  }

  lemma LacksPrefix(ops: seq<Link>, ops': seq<Link>, key: Bytes)
    requires ops <= ops' && Lacks(ops', key)
    ensures Lacks(ops, key)
  {
  }

  lemma UnjumpedStays(env: Env, p: Plan, h: Heap, h': Heap)
    requires Fit(env, p, h) && Fit(env, p, h') && Evolved(p, h, h') && OnlyOff(p, h, h') && Unjumped(p, h)
    ensures Unjumped(p, h')
  {
    hide Key, FirstFits, KeysFit, ChainFits, Closed;
    if p.chain != [] {
      var last := p.chain[|p.chain| - 1];
      forall k | 0 <= k < |h'[last].ops|
        ensures Key(h'[last].ops[k]) != p.word[p.tag[last].pos]
      {
        if k < |h[last].ops| {
          assert h'[last].ops[k] == h[last].ops[k];
        }
      }
    }
  }

  /** What the loop over `from.ops` needs from turn i on. */
  ghost predicate LoopOk(p: Plan, h: Heap, into: Timestamp, from: Timestamp, i: nat)
    requires Static(p) && p.tag.Keys <= h.Keys
  {
    && Pair(p, into, from) && i <= |h[from].ops|
    && (IsLast(p, from) ==> Unjumped(p, h))
    && (forall j :: i <= j < |h[from].ops| && h[from].ops[j].stamp in p.chain ==> Unjumped(p, h))
  }

  lemma LoopStarts(env: Env, p: Plan, h: Heap, into: Timestamp, from: Timestamp)
    requires Fit(env, p, h) && Pair(p, into, from) && (from in p.chain ==> Unjumped(p, h))
    ensures LoopOk(p, h, into, from, 0)
  {
    hide Key, FirstFits, KeysFit, SideFits, Closed, Unjumped;
  }

  /** After a turn the loop goes on: what must not have happened has not, as long as it matters. */
  lemma LoopGoesOn(env: Env, p: Plan, h: Heap, h': Heap, into: Timestamp, from: Timestamp, i: nat)
    requires Fit(env, p, h) && LoopOk(p, h, into, from, i) && i < |h[from].ops|
    requires Fit(env, p, h') && Evolved(p, h, h') && (p.tag[h[from].ops[i].stamp].Off? ==> OnlyOff(p, h, h'))
    ensures LoopOk(p, h', into, from, i + 1)
  {
    hide Key, KeysFit, FirstFits, Closed;
    assert Turn(p, h, into, from, i);
    TurnTag(env, p, h, into, from, i);
    if p.tag[h[from].ops[i].stamp].Off? && Unjumped(p, h) {
      UnjumpedStays(env, p, h, h');
    }
    if IsLast(p, from) {
      LastLeavesPath(env, p, h, from, i);
    }
    forall j: nat | i + 1 <= j < |h'[from].ops| && h'[from].ops[j].stamp in p.chain
      ensures Unjumped(p, h')
    {
      NoNewChainLink(env, p, h, h', from, j);
      assert Unjumped(p, h);
      OtherKeysLeave(env, p, h, from, i, j);
    }
  }

  lemma LastLeavesPath(env: Env, p: Plan, h: Heap, from: Timestamp, i: nat)
    requires Fit(env, p, h) && IsLast(p, from) && Unjumped(p, h) && i < |h[from].ops|
    ensures h[from].ops[i].stamp in p.tag && p.tag[h[from].ops[i].stamp].Off?
  {
    hide Key, KeysFit, FirstFits, Closed, ChainFits;
  }

  lemma NoNewChainLink(env: Env, p: Plan, h: Heap, h': Heap, from: Timestamp, j: nat)
    requires Fit(env, p, h) && Fit(env, p, h') && Evolved(p, h, h') && from in p.side
    requires j < |h'[from].ops| && h'[from].ops[j].stamp in p.chain
    ensures j < |h[from].ops| && h[from].ops[j] == h'[from].ops[j]
  {
    hide Key, KeysFit, FirstFits, Closed;
    assert from in p.chain && First(h'[from].ops, j);
    assert GoesOn(p, from, Key(h'[from].ops[j]));
  }

  /** Before the link that goes on along the chain, links lead beside the path. */
  lemma OtherKeysLeave(env: Env, p: Plan, h: Heap, from: Timestamp, i: nat, j: nat)
    requires Fit(env, p, h) && from in p.side && i < j < |h[from].ops| && h[from].ops[j].stamp in p.chain
    ensures h[from].ops[i].stamp in p.tag && p.tag[h[from].ops[i].stamp].Off?
  {
    hide Key, KeysFit, FirstFits, Closed;
    assert from in p.chain && First(h[from].ops, j);
    assert h[from].ops[..j][i] == h[from].ops[i];
  }

  /** The measure of a run: how much of the tags is left below `from`. */
  ghost function Left(p: Plan, x: Timestamp): (nat, nat, nat)
    requires Static(p) && x in p.side
  {
    match p.tag[x]
    case On(round, pos) => (1, p.top - round, |p.word| - pos)
    case Off(level) => (0, p.top - level, 0)
  }

  lemma LeftFalls(env: Env, p: Plan, h: Heap, into: Timestamp, from: Timestamp, i: nat)
    requires Fit(env, p, h) && Turn(p, h, into, from, i)
    ensures h[from].ops[i].stamp in p.side
    ensures var a, b := Left(p, h[from].ops[i].stamp), Left(p, from);
      a.0 < b.0 || (a.0 == b.0 && (a.1 < b.1 || (a.1 == b.1 && a.2 < b.2)))
  {
    hide Key, KeysFit, FirstFits, SideFits, ChainFits, Closed;
    TurnTag(env, p, h, into, from, i);
  }

  /** Only the attestations of one object change: every object stands where it stood. */
  lemma AttestationsFit(env: Env, p: Plan, h: Heap, x: Timestamp, atts: seq<Attestation>)
    requires Fit(env, p, h) && x in h
    ensures var h' := h[x := Fields(atts, h[x].ops)];
      Fit(env, p, h') && Evolved(p, h, h') && OnlyOff(p, h, h') && (Unjumped(p, h) ==> Unjumped(p, h'))
  {
    hide Key, Lacks, LinkFits, Ahead, Static;
    var h' := h[x := Fields(atts, h[x].ops)];
    assert h'.Keys == h.Keys && forall y :: y in h ==> h'[y].ops == h[y].ops;
    AttestationsApart(env, p, h, h');
  }

  lemma AttestationsApart(env: Env, p: Plan, h: Heap, h': Heap)
    requires Fit(env, p, h) && h'.Keys == h.Keys && forall y :: y in h ==> h'[y].ops == h[y].ops
    ensures Closed(h') && SideFits(p, h') && FirstFits(p, h') && ChainFits(p, h') && KeysFit(env, p, h')
  {
    hide Key, Lacks, LinkFits, Ahead, First, GoesOn;
    assert forall y :: y in p.tag ==> h'[y].ops == h[y].ops;
    assert forall y :: y in p.chain ==> y in p.tag;
  }

  lemma {:induction false} PairFinishes(env: Env, p: Plan, h: Heap, into: Timestamp, from: Timestamp)
    returns (fuel: nat)
    requires Fit(env, p, h) && Pair(p, into, from) && (from in p.chain ==> Unjumped(p, h))
    ensures into in h && from in h && MergeRun(env, h, into, from, fuel).Done?
    ensures var h' := MergeRun(env, h, into, from, fuel).heap;
      Fit(env, p, h') && Evolved(p, h, h') && (p.tag[from].Off? ==> OnlyOff(p, h, h'))
    decreases Left(p, from).0, Left(p, from).1, Left(p, from).2, 2, 0, 0
  {
    hide Key, KeysFit, FirstFits, SideFits, ChainFits, Closed, Unjumped, LoopRun, MergeAttestations;
    assert into in h && from in h;
    var atts := MergeAttestations(env, h[into].attestations, h[from].attestations);
    var h1 := h[into := Fields(atts, h[into].ops)];
    AttestationsFit(env, p, h, into, atts);
    LoopStarts(env, p, h1, into, from);
    var rest := LoopFinishes(env, p, h1, into, from, 0);
    EvolvedTransitive(p, h, h1, LoopRun(env, h1, into, from, 0, rest).heap);
    fuel := rest + 1;
  }

  lemma {:induction false} LoopFinishes(env: Env, p: Plan, h: Heap, into: Timestamp, from: Timestamp, i: nat)
    returns (fuel: nat)
    requires Fit(env, p, h) && LoopOk(p, h, into, from, i)
    ensures into in h && from in h && LoopRun(env, h, into, from, i, fuel).Done?
    ensures var h' := LoopRun(env, h, into, from, i, fuel).heap;
      Fit(env, p, h') && Evolved(p, h, h') && (p.tag[from].Off? ==> OnlyOff(p, h, h'))
    decreases Left(p, from).0, Left(p, from).1, Left(p, from).2, 1, |Missing(p, h)|, |h[from].ops| - i
  {
    hide Key, KeysFit, FirstFits, SideFits, ChainFits, Closed, Unjumped, EntryRun, Missing;
    if i == |h[from].ops| {
      fuel := 0;
      EvolvedNot(p, h);
    } else {
      var e := h[from].ops[i];
      assert Turn(p, h, into, from, i);
      TurnTag(env, p, h, into, from, i);
      var f := EntryFinishes(env, p, h, into, from, i);
      var h1 := EntryRun(env, h, into, e, f).heap;
      LoopGoesOn(env, p, h, h1, into, from, i);
      MissingShrinks(env, p, h, h1, from);
      var g := LoopFinishes(env, p, h1, into, from, i + 1);
      EvolvedTransitive(p, h, h1, LoopRun(env, h1, into, from, i + 1, g).heap);
      fuel := f + g + 1;
      EntryMore(env, h, into, e, f, f + g);
      LoopMore(env, h1, into, from, i + 1, g, f + g);
    }
  }

  lemma EvolvedNot(p: Plan, h: Heap)
    requires Static(p)
    ensures Evolved(p, h, h) && OnlyOff(p, h, h)
  {
  }

  lemma {:induction false} EntryFinishes(env: Env, p: Plan, h: Heap, into: Timestamp, from: Timestamp, i: nat)
    returns (fuel: nat)
    requires Fit(env, p, h) && Turn(p, h, into, from, i)
    ensures into in h && from in h && h[from].ops[i].stamp in p.side &&
      EntryRun(env, h, into, h[from].ops[i], fuel).Done?
    ensures var h' := EntryRun(env, h, into, h[from].ops[i], fuel).heap;
      Fit(env, p, h') && Evolved(p, h, h') && (p.tag[h[from].ops[i].stamp].Off? ==> OnlyOff(p, h, h'))
    decreases Left(p, from).0, Left(p, from).1, Left(p, from).2, 0, 0, 0
  {
    hide Key, KeysFit, FirstFits, SideFits, ChainFits, Unjumped, MergeRun;
    LeftFalls(env, p, h, into, from, i);
    var e := h[from].ops[i];
    match Find(h[into].ops, Key(e))
    case None =>
      fuel := 0;
      PushFits(env, p, h, into, from, i);
    case Some(k) =>
      DownPair(env, p, h, into, from, i, k);
      fuel := PairFinishes(env, p, h, h[into].ops[k].stamp, e.stamp);
      fuel := fuel + 1;
  }

  // ---------------------------------------------------------------- no cycle at the end

  lemma {:induction false} SideWay(env: Env, p: Plan, h: Heap, x: Timestamp, way: seq<nat>, y: Timestamp)
    requires Fit(env, p, h) && x in p.side && Leads(h, x, way, y)
    ensures y in p.side && (way != [] ==> Before(p.tag[x], p.tag[y]))
    decreases |way|
  {
    hide Key, KeysFit, FirstFits, ChainFits, Closed;
    if way != [] {
      SideWay(env, p, h, h[x].ops[way[0]].stamp, way[1..], y);
    }
  }

  lemma {:induction false} OutsideWay(env: Env, p: Plan, h: Heap, h': Heap, x: Timestamp, way: seq<nat>, y: Timestamp)
    requires Fit(env, p, h') && Evolved(p, h, h') && Leads(h', x, way, y) && y !in p.side
    ensures Leads(h, x, way, y)
    decreases |way|
  {
    hide Key, KeysFit, FirstFits, ChainFits, Closed;
    if way != [] {
      var next := h'[x].ops[way[0]].stamp;
      if next in p.side {
        SideWay(env, p, h', next, way[1..], y);
      } else {
        OutsideWay(env, p, h, h', next, way[1..], y);
      }
    }
  }

  lemma StaysAcyclic(env: Env, p: Plan, h: Heap, h': Heap)
    requires Acyclic(h) && Fit(env, p, h') && Evolved(p, h, h')
    ensures Acyclic(h')
  {
    hide Fit;
    forall x | x in h'
      ensures !LeadsProperly(h', x, x)
    {
      if LeadsProperly(h', x, x) {
        var way :| way != [] && Leads(h', x, way, x);
        if x in p.side {
          SideWay(env, p, h', x, way, x);
        } else {
          OutsideWay(env, p, h, h', x, way, x);
        }
      }
    }
  }
}
