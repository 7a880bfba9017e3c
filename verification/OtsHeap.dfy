/**
  `merge` as the source runs it (src/phala/anchor.ts:428-445): on two separate trees of objects, in
  place. `from`'s subtrees are linked into `into`, not copied.
 */
module OtsHeap {
  import opened Basics
  import opened OtsWire
  import opened OtsTree
  import opened OtsMerge

  datatype Link = Link(op: Op, stamp: Timestamp)

  class Timestamp {
    const msg: Bytes
    var attestations: seq<Attestation>
    var ops: seq<Link>
    /** The objects of this tree, and the tree they stand for. */
    ghost var repr: set<Timestamp>
    ghost var value: Stamp

    ghost predicate Valid()
      reads this, repr
      decreases repr
    {
      && this in repr
      && value.msg == msg && value.attestations == attestations && |value.ops| == |ops|
      && (forall i :: 0 <= i < |ops| ==>
        ops[i].stamp in repr && ops[i].stamp.repr <= repr && this !in ops[i].stamp.repr)
      && (forall i :: 0 <= i < |ops| ==> ops[i].stamp.Valid())
      && (forall i :: 0 <= i < |ops| ==> value.ops[i] == Branch(ops[i].op, ops[i].stamp.value))
      && (forall i, j :: 0 <= i < j < |ops| ==> ops[i].stamp.repr !! ops[j].stamp.repr)
    }

    constructor (msg: Bytes)
      ensures Valid() && fresh(repr) && value == Stamp(msg, [], [])
    {
      this.msg := msg;
      attestations := [];
      ops := [];
      repr := {this};
      value := Stamp(msg, [], []);
    }
  }

  /** The loop over the attestations of the other proof. */
  method UniteAttestations(env: Env, mine: seq<Attestation>, theirs: seq<Attestation>) returns (atts: seq<Attestation>)
    ensures atts == MergeAttestations(env, mine, theirs)
  {
    hide HasKey;
    atts := mine;
    for i := 0 to |theirs|
      invariant MergeAttestations(env, mine, theirs) == MergeAttestations(env, atts, theirs[i..])
    {
      assert theirs[i..][1..] == theirs[i + 1..];
      if !HasKey(env, atts, theirs[i]) {
        atts := atts + [theirs[i]];
      }
    }
  }

  method MergeAttestationsInto(env: Env, into: Timestamp, from: seq<Attestation>)
    requires into.Valid()
    modifies into
    ensures into.Valid() && into.repr == old(into.repr) && into.ops == old(into.ops)
    ensures into.value == old(into.value).(attestations := MergeAttestations(env, old(into.attestations), from))
  {
    hide MergeAttestations;
    into.attestations := UniteAttestations(env, into.attestations, from);
    into.value := into.value.(attestations := into.attestations);
  }

  /** merge: `into` becomes the merged tree; the links of `from` are taken over. */
  method MergeInto(env: Env, into: Timestamp, from: Timestamp) returns (ok: bool)
    requires into.Valid() && from.Valid() && into.repr !! from.repr
    modifies into.repr, from.repr
    ensures ok <==> Merge(env, old(into.value), old(from.value)).Ok?
    ensures ok ==> into.Valid() && into.repr <= old(into.repr) + old(from.repr)
    ensures ok ==> Ok(into.value) == Merge(env, old(into.value), old(from.value))
    decreases from.repr, 1
  {
    hide MergeOps, MergeAttestations;
    if into.msg != from.msg {
      return false;
    }
    MergeAttestationsInto(env, into, from.attestations);
    ok := MergeLinks(env, into, from.ops, from.value.ops, from.repr - {from});
  }

  /** A link of `from` not reached yet: still the tree it was, and apart from `into`. */
  ghost predicate Untouched(e: Link, b: Branch, into: Timestamp, within: set<Timestamp>)
    reads into, e.stamp, e.stamp.repr
  {
    e.stamp.Valid() && b == Branch(e.op, e.stamp.value) && e.stamp.repr !! into.repr && e.stamp.repr <= within
  }

  ghost predicate Apart(links: seq<Link>)
    reads set k | 0 <= k < |links| :: links[k].stamp
  {
    forall k, l :: 0 <= k < l < |links| ==> links[k].stamp.repr !! links[l].stamp.repr
  }

  /** The loop over `from.ops`. */
  method MergeLinks(env: Env, into: Timestamp, links: seq<Link>, ghost branches: seq<Branch>,
      ghost within: set<Timestamp>)
    returns (ok: bool)
    requires into.Valid() && |links| == |branches| && Apart(links)
    requires forall k :: 0 <= k < |links| ==> Untouched(links[k], branches[k], into, within)
    modifies into.repr, within
    ensures ok <==> MergeOps(env, old(into.value.ops), branches).Ok?
    ensures ok ==> into.Valid() && into.repr <= old(into.repr) + within
    ensures ok ==> into.value == old(into.value).(ops := MergeOps(env, old(into.value.ops), branches).value)
    decreases within, 3, |links|
  {
    hide MergeOne;
    if links == [] {
      return true;
    }
    assert Untouched(links[0], branches[0], into, within);
    ok := MergeLink(env, into, links[0]);
    if ok {
      assert forall k :: 0 < k < |links| ==> Untouched(links[k], branches[k], into, within);
      ok := MergeLinks(env, into, links[1..], branches[1..], within);
    }
  }

  method MergeLink(env: Env, into: Timestamp, e: Link) returns (ok: bool)
    requires into.Valid() && e.stamp.Valid() && into.repr !! e.stamp.repr
    modifies into.repr, e.stamp.repr
    ensures ok <==> MergeOne(env, old(into.value.ops), Branch(e.op, old(e.stamp.value))).Ok?
    ensures ok ==> into.Valid() && into.repr <= old(into.repr) + old(e.stamp.repr)
    ensures ok ==>
      into.value == old(into.value).(ops := MergeOne(env, old(into.value.ops), Branch(e.op, old(e.stamp.value))).value)
    decreases e.stamp.repr, 2
  {
    hide Merge, WriteOp, FindOp;
    var i := FindLink(into, e.op);
    if i.None? {
      PushLink(into, e);
      return true;
    }
    var k := i.value;
    var mine := into.ops[k].stamp;
    ghost var theirs := e.stamp.repr;
    assert forall j :: 0 <= j < |into.ops| && j != k ==> into.ops[j].stamp.repr !! mine.repr;
    ok := MergeInto(env, mine, e.stamp);
    if ok {
      Refresh(into, k, theirs);
    }
  }

  /** `into.ops.push(entry)`. */
  method PushLink(into: Timestamp, e: Link)
    requires into.Valid() && e.stamp.Valid() && into.repr !! e.stamp.repr
    modifies into
    ensures into.Valid() && into.repr == old(into.repr) + e.stamp.repr
    ensures into.value == old(into.value).(ops := old(into.value.ops) + [Branch(e.op, e.stamp.value)])
  {
    into.value := into.value.(ops := into.value.ops + [Branch(e.op, e.stamp.value)]);
    into.ops := into.ops + [e];
    into.repr := into.repr + e.stamp.repr;
  }

  /** Proof only: the tree below link k has changed and may now use objects from `added`. */
  ghost method Refresh(into: Timestamp, k: nat, added: set<Timestamp>)
    requires k < |into.ops| == |into.value.ops| && into in into.repr && into !in added
    requires into.value.msg == into.msg && into.value.attestations == into.attestations
    requires forall i :: 0 <= i < |into.ops| ==>
      into.ops[i].stamp in into.repr && into.ops[i].stamp.repr <= into.repr + added && into !in into.ops[i].stamp.repr
    requires forall i :: 0 <= i < |into.ops| ==> into.ops[i].stamp.Valid()
    requires forall i :: 0 <= i < |into.ops| && i != k ==>
      into.value.ops[i] == Branch(into.ops[i].op, into.ops[i].stamp.value)
    requires forall i, j :: 0 <= i < j < |into.ops| ==> into.ops[i].stamp.repr !! into.ops[j].stamp.repr
    modifies into
    ensures into.Valid() && into.repr == old(into.repr) + added
    ensures into.value ==
      old(into.value).(ops := old(into.value.ops)[k := Branch(into.ops[k].op, into.ops[k].stamp.value)])
    ensures into.ops == old(into.ops)
  {
    into.repr := into.repr + added;
    into.value := into.value.(ops := into.value.ops[k := Branch(into.ops[k].op, into.ops[k].stamp.value)]);
  }

  /** The `find` over the object's operations. */
  method FindLink(into: Timestamp, op: Op) returns (r: Option<nat>)
    requires into.Valid()
    ensures r == FindOp(into.value.ops, op)
    ensures r.Some? ==> r.value < |into.ops|
  {
    hide WriteOp;
    ghost var ops := into.value.ops;
    for i := 0 to |into.ops|
      invariant FindOp(ops, op) == if FindOp(ops[i..], op).Some? then Some(FindOp(ops[i..], op).value + i) else None
    {
      assert ops[i..][1..] == ops[i + 1..];
      if WriteOp(into.ops[i].op) == WriteOp(op) {
        return Some(i);
      }
    }
    return None;
  }
}
