/**
  `merge` and `spliceAt` run on a heap of objects (src/phala/anchor.ts:428-445, 593-599): functions that say
  what the calls do to the objects step by step, from any of them, whether or not they come to an end.
 */
module OtsRun {
  import opened Basics
  import opened OtsWire
  import opened OtsTree
  import opened OtsMerge
  import opened OtsHeap

  /** The fields of an object at one time. */
  datatype Fields = Fields(attestations: seq<Attestation>, ops: seq<Link>)

  type Heap = map<Timestamp, Fields>

  ghost function WithLink(h: Heap, into: Timestamp, e: Link): Heap
    requires into in h
  {
    h[into := Fields(h[into].attestations, h[into].ops + [e])]
  }

  // ---------------------------------------------------------------- the run of merge

  /** How far a call got: it came to its end, threw, or is still running after so many steps. */
  datatype Outcome = Done(heap: Heap) | Threw | Unfinished

  function Key(e: Link): Bytes {
    WriteOp(e.op)
  }

  /** The first link with this key. */
  function Find(ops: seq<Link>, key: Bytes): (r: Option<nat>)
    ensures r.Some? ==>
      r.value < |ops| && Key(ops[r.value]) == key && forall k :: 0 <= k < r.value ==> Key(ops[k]) != key
    ensures r.None? ==> forall k :: 0 <= k < |ops| ==> Key(ops[k]) != key
  {
    if ops == [] then None
    else
      var last := |ops| - 1;
      assert forall k :: 0 <= k < last ==> ops[..last][k] == ops[k];
      match Find(ops[..last], key)
      case Some(i) => Some(i)
      case None => if Key(ops[last]) == key then Some(last) else None
  }

  /** Links stay among the objects. */
  ghost predicate Closed(h: Heap) {
    forall x, i :: x in h && 0 <= i < |h[x].ops| ==> h[x].ops[i].stamp in h
  }

  /** merge, with `fuel` bounding the number of its steps; the loop reads `from.ops` as it is at each turn. */
  ghost function MergeRun(env: Env, h: Heap, into: Timestamp, from: Timestamp, fuel: nat): (r: Outcome)
    requires Closed(h) && into in h && from in h
    ensures r.Done? ==> Closed(r.heap) && r.heap.Keys == h.Keys
    decreases fuel, 0
  {
    if fuel == 0 then Unfinished
    else if into.msg != from.msg then Threw
    else
      var atts := MergeAttestations(env, h[into].attestations, h[from].attestations);
      LoopRun(env, h[into := Fields(atts, h[into].ops)], into, from, 0, fuel - 1)
  }

  ghost function LoopRun(env: Env, h: Heap, into: Timestamp, from: Timestamp, i: nat, fuel: nat): (r: Outcome)
    requires Closed(h) && into in h && from in h
    ensures r.Done? ==> Closed(r.heap) && r.heap.Keys == h.Keys
    decreases fuel, 1
  {
    if i >= |h[from].ops| then Done(h)
    else if fuel == 0 then Unfinished
    else
      match EntryRun(env, h, into, h[from].ops[i], fuel - 1)
      case Done(h') => LoopRun(env, h', into, from, i + 1, fuel - 1)
      case Threw => Threw
      case Unfinished => Unfinished
  }

  ghost function EntryRun(env: Env, h: Heap, into: Timestamp, e: Link, fuel: nat): (r: Outcome)
    requires Closed(h) && into in h && e.stamp in h
    ensures r.Done? ==> Closed(r.heap) && r.heap.Keys == h.Keys
    decreases fuel, 2
  {
    match Find(h[into].ops, Key(e))
    case None => Done(WithLink(h, into, e))
    case Some(k) => if fuel == 0 then Unfinished else MergeRun(env, h, h[into].ops[k].stamp, e.stamp, fuel - 1)
  }

  // ---------------------------------------------------------------- the run of spliceAt

  ghost function SpliceRun(env: Env, h: Heap, stamp: Timestamp, graft: Timestamp, fuel: nat): (r: Outcome)
    requires Closed(h) && stamp in h && graft in h
    ensures r.Done? ==> Closed(r.heap) && r.heap.Keys == h.Keys
    decreases fuel, 3
  {
    if fuel == 0 then Unfinished
    else if stamp.msg == graft.msg then MergeRun(env, h, stamp, graft, fuel - 1)
    else WalkRun(env, h, stamp, graft, 0, fuel - 1)
  }

  ghost function WalkRun(env: Env, h: Heap, stamp: Timestamp, graft: Timestamp, i: nat, fuel: nat): (r: Outcome)
    requires Closed(h) && stamp in h && graft in h
    ensures r.Done? ==> Closed(r.heap) && r.heap.Keys == h.Keys
    decreases fuel, 4
  {
    if i >= |h[stamp].ops| then Done(h)
    else if fuel == 0 then Unfinished
    else
      match SpliceRun(env, h, h[stamp].ops[i].stamp, graft, fuel - 1)
      case Done(h') => WalkRun(env, h', stamp, graft, i + 1, fuel - 1)
      case Threw => Threw
      case Unfinished => Unfinished
  }

  // ---------------------------------------------------------------- more fuel changes nothing

  lemma {:induction false} MergeMore(env: Env, h: Heap, into: Timestamp, from: Timestamp, fuel: nat, more: nat)
    requires Closed(h) && into in h && from in h && MergeRun(env, h, into, from, fuel).Done? && fuel <= more
    ensures MergeRun(env, h, into, from, more) == MergeRun(env, h, into, from, fuel)
    decreases fuel, 0
  {
    var atts := MergeAttestations(env, h[into].attestations, h[from].attestations);
    LoopMore(env, h[into := Fields(atts, h[into].ops)], into, from, 0, fuel - 1, more - 1);
  }

  lemma {:induction false} LoopMore(env: Env, h: Heap, into: Timestamp, from: Timestamp, i: nat, fuel: nat, more: nat)
    requires Closed(h) && into in h && from in h && LoopRun(env, h, into, from, i, fuel).Done? && fuel <= more
    ensures LoopRun(env, h, into, from, i, more) == LoopRun(env, h, into, from, i, fuel)
    decreases fuel, 1
  {
    if i < |h[from].ops| {
      EntryMore(env, h, into, h[from].ops[i], fuel - 1, more - 1);
      var h' := EntryRun(env, h, into, h[from].ops[i], fuel - 1).heap;
      LoopMore(env, h', into, from, i + 1, fuel - 1, more - 1);
    }
  }

  lemma {:induction false} EntryMore(env: Env, h: Heap, into: Timestamp, e: Link, fuel: nat, more: nat)
    requires Closed(h) && into in h && e.stamp in h && EntryRun(env, h, into, e, fuel).Done? && fuel <= more
    ensures EntryRun(env, h, into, e, more) == EntryRun(env, h, into, e, fuel)
    decreases fuel, 2
  {
    match Find(h[into].ops, Key(e))
    case None =>
    case Some(k) => MergeMore(env, h, h[into].ops[k].stamp, e.stamp, fuel - 1, more - 1);
  }

  lemma {:induction false} SpliceMore(env: Env, h: Heap, stamp: Timestamp, graft: Timestamp, fuel: nat, more: nat)
    requires Closed(h) && stamp in h && graft in h && SpliceRun(env, h, stamp, graft, fuel).Done? && fuel <= more
    ensures SpliceRun(env, h, stamp, graft, more) == SpliceRun(env, h, stamp, graft, fuel)
    decreases fuel, 3
  {
    if stamp.msg == graft.msg {
      MergeMore(env, h, stamp, graft, fuel - 1, more - 1);
    } else {
      WalkMore(env, h, stamp, graft, 0, fuel - 1, more - 1);
    }
  }

  lemma {:induction false} WalkMore(env: Env, h: Heap, stamp: Timestamp, graft: Timestamp, i: nat, fuel: nat, more: nat)
    requires Closed(h) && stamp in h && graft in h && WalkRun(env, h, stamp, graft, i, fuel).Done? && fuel <= more
    ensures WalkRun(env, h, stamp, graft, i, more) == WalkRun(env, h, stamp, graft, i, fuel)
    decreases fuel, 4
  {
    hide SpliceRun, Closed;
    if i < |h[stamp].ops| {
      var next := h[stamp].ops[i].stamp;
      ClosedChild(h, stamp, i);
      SpliceMore(env, h, next, graft, fuel - 1, more - 1);
      WalkMore(env, SpliceRun(env, h, next, graft, fuel - 1).heap, stamp, graft, i + 1, fuel - 1, more - 1);
    }
  }

  lemma ClosedChild(h: Heap, x: Timestamp, i: nat)
    requires Closed(h) && x in h && i < |h[x].ops|
    ensures h[x].ops[i].stamp in h
  {
  }

  // ---------------------------------------------------------------- loops in progress

  /** The loop that started on h1 has come to turn i on h, in `used` steps. */
  ghost predicate Ran(env: Env, h1: Heap, h: Heap, into: Timestamp, from: Timestamp, i: nat, used: nat)
    requires Closed(h1) && Closed(h) && into in h1 && from in h1 && into in h && from in h
  {
    forall g: nat :: RanOn(env, h1, h, into, from, i, used, g)
  }

  /** If the rest ends in g steps, the whole does in as many more. */
  ghost predicate RanOn(env: Env, h1: Heap, h: Heap, into: Timestamp, from: Timestamp, i: nat, used: nat, g: nat)
    requires Closed(h1) && Closed(h) && into in h1 && from in h1 && into in h && from in h
  {
    LoopRun(env, h, into, from, i, g).Done? ==>
      LoopRun(env, h1, into, from, 0, used + g) == LoopRun(env, h, into, from, i, g)
  }

  lemma RanNone(env: Env, h: Heap, into: Timestamp, from: Timestamp)
    requires Closed(h) && into in h && from in h
    ensures Ran(env, h, h, into, from, 0, 0)
  {
  }

  lemma RanStep(env: Env, h1: Heap, h: Heap, h': Heap, into: Timestamp, from: Timestamp, i: nat, used: nat, f: nat)
    requires Closed(h1) && Closed(h) && Closed(h') && into in h1 && from in h1 && into in h && from in h &&
      into in h' && from in h'
    requires Ran(env, h1, h, into, from, i, used) && i < |h[from].ops| && h[from].ops[i].stamp in h
    requires EntryRun(env, h, into, h[from].ops[i], f) == Done(h')
    ensures Ran(env, h1, h', into, from, i + 1, used + f + 1)
  {
    hide EntryRun, Closed;
    var next, total := i + 1, used + f + 1;
    forall g: nat
      ensures RanOn(env, h1, h', into, from, next, total, g)
    {
      if LoopRun(env, h', into, from, i + 1, g).Done? {
        EntryMore(env, h, into, h[from].ops[i], f, f + g);
        LoopMore(env, h', into, from, i + 1, g, f + g);
        assert LoopRun(env, h, into, from, i, f + g + 1) == LoopRun(env, h', into, from, i + 1, g);
        assert RanOn(env, h1, h, into, from, i, used, f + g + 1);
        assert used + (f + g + 1) == used + f + 1 + g;
      }
    }
  }

  lemma RanAll(env: Env, h1: Heap, h: Heap, into: Timestamp, from: Timestamp, i: nat, used: nat)
    requires Closed(h1) && Closed(h) && into in h1 && from in h1 && into in h && from in h
    requires Ran(env, h1, h, into, from, i, used) && i >= |h[from].ops|
    ensures LoopRun(env, h1, into, from, 0, used) == Done(h)
  {
    assert LoopRun(env, h, into, from, i, 0) == Done(h);
    assert RanOn(env, h1, h, into, from, i, used, 0) && used + 0 == used;
  }

  ghost predicate WalkRan(env: Env, h1: Heap, h: Heap, stamp: Timestamp, graft: Timestamp, i: nat, used: nat)
    requires Closed(h1) && Closed(h) && stamp in h1 && graft in h1 && stamp in h && graft in h
  {
    forall g: nat :: WalkRanOn(env, h1, h, stamp, graft, i, used, g)
  }

  ghost predicate WalkRanOn(env: Env, h1: Heap, h: Heap, stamp: Timestamp, graft: Timestamp, i: nat, used: nat, g: nat)
    requires Closed(h1) && Closed(h) && stamp in h1 && graft in h1 && stamp in h && graft in h
  {
    WalkRun(env, h, stamp, graft, i, g).Done? ==>
      WalkRun(env, h1, stamp, graft, 0, used + g) == WalkRun(env, h, stamp, graft, i, g)
  }

  lemma WalkRanNone(env: Env, h: Heap, stamp: Timestamp, graft: Timestamp)
    requires Closed(h) && stamp in h && graft in h
    ensures WalkRan(env, h, h, stamp, graft, 0, 0)
  {
  }

  lemma WalkRanStep(env: Env, h1: Heap, h: Heap, h': Heap, stamp: Timestamp, graft: Timestamp, i: nat, used: nat,
      f: nat)
    requires Closed(h1) && Closed(h) && Closed(h') && stamp in h1 && graft in h1 && stamp in h && graft in h &&
      stamp in h' && graft in h'
    requires WalkRan(env, h1, h, stamp, graft, i, used) && i < |h[stamp].ops| && h[stamp].ops[i].stamp in h
    requires SpliceRun(env, h, h[stamp].ops[i].stamp, graft, f) == Done(h')
    ensures WalkRan(env, h1, h', stamp, graft, i + 1, used + f + 1)
  {
    hide SpliceRun, Closed;
    var next, total := i + 1, used + f + 1;
    forall g: nat
      ensures WalkRanOn(env, h1, h', stamp, graft, next, total, g)
    {
      if WalkRun(env, h', stamp, graft, i + 1, g).Done? {
        SpliceMore(env, h, h[stamp].ops[i].stamp, graft, f, f + g);
        WalkMore(env, h', stamp, graft, i + 1, g, f + g);
        assert WalkRun(env, h, stamp, graft, i, f + g + 1) == WalkRun(env, h', stamp, graft, i + 1, g);
        assert WalkRanOn(env, h1, h, stamp, graft, i, used, f + g + 1);
        assert used + (f + g + 1) == used + f + 1 + g;
      }
    }
  }

  lemma WalkRanAll(env: Env, h1: Heap, h: Heap, stamp: Timestamp, graft: Timestamp, i: nat, used: nat)
    requires Closed(h1) && Closed(h) && stamp in h1 && graft in h1 && stamp in h && graft in h
    requires WalkRan(env, h1, h, stamp, graft, i, used) && i >= |h[stamp].ops|
    ensures WalkRun(env, h1, stamp, graft, 0, used) == Done(h)
  {
    assert WalkRun(env, h, stamp, graft, i, 0) == Done(h);
    assert WalkRanOn(env, h1, h, stamp, graft, i, used, 0) && used + 0 == used;
  }
}
