/**
  Folding proofs together (src/phala/anchor.ts:428-460, 593-599): `merge` unites what two trees
  about one message attest, `spliceAt` grafts a new tree wherever its message occurs.
 */
module OtsMerge {
  import opened Basics
  import opened OtsWire
  import opened OtsOrder
  import opened StableSort
  import opened OtsTree

  /** What a proof claims: this attestation vouches for these bytes. */
  datatype Reached = Reached(attestation: Attestation, commitment: Bytes)

  function Reachable(s: Stamp): seq<Reached> {
    About(s.attestations, s.msg) + ReachableAll(s.ops)
  }

  function About(atts: seq<Attestation>, msg: Bytes): (r: seq<Reached>)
    ensures forall x :: x in r <==> x.attestation in atts && x.commitment == msg
  {
    if atts == [] then []
    else
      assert atts == [atts[0]] + atts[1..];
      [Reached(atts[0], msg)] + About(atts[1..], msg)
  }

  function ReachableUnder(b: Branch): seq<Reached> {
    Reachable(b.stamp)
  }

  function ReachableAll(ops: seq<Branch>): seq<Reached> {
    if ops == [] then [] else ReachableUnder(ops[0]) + ReachableAll(ops[1..])
  }

  lemma {:induction false} ReachableAllMember(ops: seq<Branch>, x: Reached)
    ensures x in ReachableAll(ops) <==> exists i :: 0 <= i < |ops| && x in ReachableUnder(ops[i])
    decreases |ops|
  {
    hide ReachableUnder;
    if ops != [] {
      ReachableAllMember(ops[1..], x);
      assert forall i :: 0 < i < |ops| ==> ops[i] == ops[1..][i - 1];
      if x in ReachableAll(ops[1..]) {
        var i :| 0 <= i < |ops[1..]| && x in ReachableUnder(ops[1..][i]);
        assert x in ReachableUnder(ops[i + 1]);
      }
    }
  }

  // ---------------------------------------------------------------- keys

  /** Attestations and operations whose bytes on the wire identify them. */
  ghost predicate Keyed(env: Env, a: Attestation) {
    if a.Unknown? then TagFits(a) && |a.tag| == 8 && |a.payload| < MAX_SAFE else Faithful(env, a)
  }

  lemma PayloadShort(env: Env, a: Attestation)
    requires Keyed(env, a)
    ensures |Payload(env, a)| <= MAX_SAFE + 16 && |Tag(a)| == 8
  {
    if !a.Unknown? {
      PayloadDecodes(env, a);
    }
  }

  lemma AttestationKey(env: Env, a: Attestation, b: Attestation)
    requires Keyed(env, a) && Keyed(env, b)
    ensures WriteAttestation(env, a) == WriteAttestation(env, b) <==> a == b
  {
    hide VarBytes, ReadVarBytes, DecodeAttestation, Payload;
    if WriteAttestation(env, a) == WriteAttestation(env, b) {
      var p, q := Payload(env, a), Payload(env, b);
      PayloadShort(env, a);
      PayloadShort(env, b);
      assert Tag(a) == WriteAttestation(env, a)[..8] == WriteAttestation(env, b)[..8] == Tag(b);
      assert VarBytes(p) == WriteAttestation(env, a)[8..] == WriteAttestation(env, b)[8..] == VarBytes(q);
      VarBytesReads(p, []);
      VarBytesReads(q, []);
      assert p == q;
      SamePayload(env, a, b);
    }
  }

  lemma SamePayload(env: Env, a: Attestation, b: Attestation)
    requires Keyed(env, a) && Keyed(env, b) && Tag(a) == Tag(b) && Payload(env, a) == Payload(env, b)
    ensures a == b
  {
    hide VarBytes, ReadVarBytes, VarUint, ReadVarUint, DecodeAttestation;
    if !a.Unknown? && !b.Unknown? {
      PayloadDecodes(env, a);
      PayloadDecodes(env, b);
    }
  }

  lemma OpKey(a: Op, b: Op)
    requires |Arg(a)| < MAX_SAFE && |Arg(b)| < MAX_SAFE
    ensures WriteOp(a) == WriteOp(b) <==> a == b
  {
    hide VarBytes, ReadVarBytes;
    if WriteOp(a) == WriteOp(b) {
      assert a.tag == WriteOp(a)[0] == WriteOp(b)[0] == b.tag;
      if a.arg.Some? && b.arg.Some? {
        assert VarBytes(a.arg.value) == WriteOp(a)[1..] == WriteOp(b)[1..] == VarBytes(b.arg.value);
        VarBytesReads(a.arg.value, []);
        VarBytesReads(b.arg.value, []);
      }
    }
  }

  // ---------------------------------------------------------------- merge

  predicate HasKey(env: Env, atts: seq<Attestation>, a: Attestation) {
    exists i :: 0 <= i < |atts| && WriteAttestation(env, atts[i]) == WriteAttestation(env, a)
  }

  function MergeAttestations(env: Env, into: seq<Attestation>, from: seq<Attestation>): seq<Attestation>
    decreases |from|
  {
    if from == [] then into
    else MergeAttestations(env, if HasKey(env, into, from[0]) then into else into + [from[0]], from[1..])
  }

  /** The first branch with the same operation. */
  function FindOp(ops: seq<Branch>, op: Op): (r: Option<nat>)
    ensures r.Some? ==> r.value < |ops| && WriteOp(ops[r.value].op) == WriteOp(op)
    ensures r.None? ==> forall i :: 0 <= i < |ops| ==> WriteOp(ops[i].op) != WriteOp(op)
  {
    if ops == [] then None
    else if WriteOp(ops[0].op) == WriteOp(op) then Some(0)
    else
      match FindOp(ops[1..], op)
      case None => assert forall i :: 0 < i < |ops| ==> ops[i] == ops[1..][i - 1]; None
      case Some(i) => Some(i + 1)
  }

  /** The tree `into` becomes; Err where the source throws. */
  function Merge(env: Env, into: Stamp, from: Stamp): Result<Stamp, Error>
    decreases from
  {
    if into.msg != from.msg then Err(DifferentMessages)
    else
      match MergeOps(env, into.ops, from.ops)
      case Err(e) => Err(e)
      case Ok(ops) => Ok(Stamp(into.msg, MergeAttestations(env, into.attestations, from.attestations), ops))
  }

  function MergeOps(env: Env, into: seq<Branch>, from: seq<Branch>): Result<seq<Branch>, Error>
    decreases from
  {
    if from == [] then Ok(into)
    else
      match MergeOne(env, into, from[0])
      case Err(e) => Err(e)
      case Ok(ops) => MergeOps(env, ops, from[1..])
  }

  /** One turn of the loop over `from.ops`: merge into the first branch with the same operation, or push. */
  function MergeOne(env: Env, into: seq<Branch>, theirs: Branch): Result<seq<Branch>, Error>
    decreases theirs, 1
  {
    match FindOp(into, theirs.op)
    case None => Ok(into + [theirs])
    case Some(i) =>
      match MergeBranch(env, into[i], theirs)
      case Err(e) => Err(e)
      case Ok(b) => Ok(into[i := b])
  }

  function MergeBranch(env: Env, mine: Branch, theirs: Branch): Result<Branch, Error>
    decreases theirs, 0
  {
    match Merge(env, mine.stamp, theirs.stamp)
    case Err(e) => Err(e)
    case Ok(s) => Ok(Branch(mine.op, s))
  }

  // ---------------------------------------------------------------- merge is union

  ghost predicate Mergeable(env: Env, s: Stamp)
    decreases s
  {
    && (forall a :: a in s.attestations ==> Keyed(env, a))
    && (forall b :: b in s.ops ==> Fits(env, s.msg, b))
  }

  /** A branch whose message is derived from `msg`, over a mergeable tree. */
  ghost predicate Fits(env: Env, msg: Bytes, b: Branch)
    decreases b
  {
    |Arg(b.op)| < MAX_SAFE && ApplyOp(env, b.op, msg) == Some(b.stamp.msg) && Mergeable(env, b.stamp)
  }

  lemma {:induction false} AttestationsUnite(env: Env, into: seq<Attestation>, from: seq<Attestation>)
    requires forall a :: a in into ==> Keyed(env, a)
    requires forall a :: a in from ==> Keyed(env, a)
    ensures forall a :: a in MergeAttestations(env, into, from) <==> a in into || a in from
    decreases |from|
  {
    hide Keyed, WriteAttestation;
    if from != [] {
      var a := from[0];
      HasKeyMember(env, into, a);
      assert from == [a] + from[1..];
      AttestationsUnite(env, if HasKey(env, into, a) then into else into + [a], from[1..]);
    }
  }

  lemma HasKeyMember(env: Env, atts: seq<Attestation>, a: Attestation)
    requires (forall x :: x in atts ==> Keyed(env, x)) && Keyed(env, a)
    ensures HasKey(env, atts, a) <==> a in atts
  {
    hide Keyed, WriteAttestation;
    forall i | 0 <= i < |atts|
      ensures WriteAttestation(env, atts[i]) == WriteAttestation(env, a) <==> atts[i] == a
    {
      AttestationKey(env, atts[i], a);
    }
  }

  /** On trees about one message whose sub-messages are derived, merging never throws, keeps
      them derived, and reaches exactly what either tree reached. */
  lemma {:induction false} MergeIsUnion(env: Env, into: Stamp, from: Stamp)
    requires into.msg == from.msg && Mergeable(env, into) && Mergeable(env, from)
    ensures Merge(env, into, from).Ok?
    ensures var r := Merge(env, into, from).value;
      && r.msg == into.msg && Mergeable(env, r)
      && forall x :: x in Reachable(r) <==> x in Reachable(into) || x in Reachable(from)
    decreases from
  {
    hide Keyed, Fits, ReachableAll;
    OpsUnite(env, into.msg, into.ops, from.ops);
    AttestationsUnite(env, into.attestations, from.attestations);
  }

  lemma {:induction false} OpsUnite(env: Env, msg: Bytes, into: seq<Branch>, from: seq<Branch>)
    requires forall b :: b in into ==> Fits(env, msg, b)
    requires forall b :: b in from ==> Fits(env, msg, b)
    ensures MergeOps(env, into, from).Ok?
    ensures var r := MergeOps(env, into, from).value;
      && (forall b :: b in r ==> Fits(env, msg, b))
      && (forall x :: x in ReachableAll(r) <==> x in ReachableAll(into) || x in ReachableAll(from))
    decreases from
  {
    hide Fits, ReachableUnder, MergeOne;
    if from != [] {
      var e := from[0];
      assert from == [e] + from[1..];
      OneUnites(env, msg, into, e);
      OpsUnite(env, msg, MergeOne(env, into, e).value, from[1..]);
    }
  }

  lemma {:induction false} OneUnites(env: Env, msg: Bytes, into: seq<Branch>, e: Branch)
    requires (forall b :: b in into ==> Fits(env, msg, b)) && Fits(env, msg, e)
    ensures MergeOne(env, into, e).Ok?
    ensures var r := MergeOne(env, into, e).value;
      && (forall b :: b in r ==> Fits(env, msg, b))
      && (forall x :: x in ReachableAll(r) <==> x in ReachableAll(into) || x in ReachableUnder(e))
    decreases e, 1
  {
    hide Fits, ReachableAll, ReachableUnder, MergeBranch, WriteOp;
    match FindOp(into, e.op)
    case None =>
      forall x
        ensures x in ReachableAll(into + [e]) <==> x in ReachableAll(into) || x in ReachableUnder(e)
      {
        ReachableSnoc(into, e, x);
      }
    case Some(i) =>
      BranchesUnite(env, msg, into[i], e);
      var b := MergeBranch(env, into[i], e).value;
      forall x
        ensures x in ReachableAll(into[i := b]) <==> x in ReachableAll(into) || x in ReachableUnder(e)
      {
        ReachableUpdate(into, i, b, e, x);
      }
  }

  lemma {:induction false} BranchesUnite(env: Env, msg: Bytes, mine: Branch, theirs: Branch)
    requires Fits(env, msg, mine) && Fits(env, msg, theirs) && WriteOp(mine.op) == WriteOp(theirs.op)
    ensures MergeBranch(env, mine, theirs).Ok?
    ensures var b := MergeBranch(env, mine, theirs).value;
      && Fits(env, msg, b)
      && forall x :: x in ReachableUnder(b) <==> x in ReachableUnder(mine) || x in ReachableUnder(theirs)
    decreases theirs, 0
  {
    hide Reachable, Mergeable, WriteOp, ApplyOp;
    OpKey(mine.op, theirs.op);
    MergeIsUnion(env, mine.stamp, theirs.stamp);
  }

  lemma ReachableSnoc(ops: seq<Branch>, b: Branch, x: Reached)
    ensures x in ReachableAll(ops + [b]) <==> x in ReachableAll(ops) || x in ReachableUnder(b)
  {
    hide ReachableAll, ReachableUnder;
    ReachableAllMember(ops, x);
    ReachableAllMember(ops + [b], x);
    var all := ops + [b];
    assert all[|ops|] == b && forall i :: 0 <= i < |ops| ==> all[i] == ops[i];
  }

  lemma ReachableUpdate(ops: seq<Branch>, i: nat, b: Branch, e: Branch, x: Reached)
    requires i < |ops|
    requires x in ReachableUnder(b) <==> x in ReachableUnder(ops[i]) || x in ReachableUnder(e)
    ensures x in ReachableAll(ops[i := b]) <==> x in ReachableAll(ops) || x in ReachableUnder(e)
  {
    hide ReachableAll, ReachableUnder;
    var ops' := ops[i := b];
    ReachableAllMember(ops, x);
    ReachableAllMember(ops', x);
    assert ops'[i] == b;
    if j :| 0 <= j < |ops| && x in ReachableUnder(ops[j]) {
      assert x in ReachableUnder(ops'[j]);
    }
    if j :| 0 <= j < |ops| && x in ReachableUnder(ops'[j]) {
      assert j == i || x in ReachableUnder(ops[j]);
    }
  }

  // ---------------------------------------------------------------- splice

  predicate Contains(s: Stamp, msg: Bytes) {
    s.msg == msg || AnyContains(s.ops, msg)
  }

  predicate BranchContains(b: Branch, msg: Bytes) {
    Contains(b.stamp, msg)
  }

  predicate AnyContains(ops: seq<Branch>, msg: Bytes) {
    ops != [] && (BranchContains(ops[0], msg) || AnyContains(ops[1..], msg))
  }

  /** Merge `graft` at every topmost node about `commitment`. */
  function Splice(env: Env, s: Stamp, commitment: Bytes, graft: Stamp): Result<Stamp, Error>
    decreases s
  {
    if s.msg == commitment then Merge(env, s, graft)
    else
      match SpliceAll(env, s.ops, commitment, graft)
      case Err(e) => Err(e)
      case Ok(ops) => Ok(s.(ops := ops))
  }

  function SpliceBranch(env: Env, b: Branch, commitment: Bytes, graft: Stamp): Result<Branch, Error>
    decreases b
  {
    match Splice(env, b.stamp, commitment, graft)
    case Err(e) => Err(e)
    case Ok(s) => Ok(Branch(b.op, s))
  }

  function SpliceAll(env: Env, ops: seq<Branch>, commitment: Bytes, graft: Stamp): Result<seq<Branch>, Error>
    decreases ops
  {
    if ops == [] then Ok([])
    else
      match SpliceBranch(env, ops[0], commitment, graft)
      case Err(e) => Err(e)
      case Ok(b) =>
        match SpliceAll(env, ops[1..], commitment, graft)
        case Err(e) => Err(e)
        case Ok(rest) => Ok([b] + rest)
  }

  /** Splicing never throws, loses nothing, and adds the graft's attestations exactly when the
      tree has a node about their message. */
  lemma {:induction false} SpliceAdds(env: Env, s: Stamp, commitment: Bytes, graft: Stamp)
    requires graft.msg == commitment && Mergeable(env, s) && Mergeable(env, graft)
    ensures Splice(env, s, commitment, graft).Ok?
    ensures var r := Splice(env, s, commitment, graft).value;
      && r.msg == s.msg && Mergeable(env, r)
      && forall x :: x in Reachable(r) <==> x in Reachable(s) || (Contains(s, commitment) && x in Reachable(graft))
    decreases s
  {
    hide Keyed, Fits, ReachableAll, Merge;
    if s.msg == commitment {
      MergeIsUnion(env, s, graft);
    } else {
      SpliceAllAdds(env, s.msg, s.ops, commitment, graft);
    }
  }

  lemma {:induction false} SpliceAllAdds(env: Env, msg: Bytes, ops: seq<Branch>, commitment: Bytes, graft: Stamp)
    requires graft.msg == commitment && Mergeable(env, graft) && forall b :: b in ops ==> Fits(env, msg, b)
    ensures SpliceAll(env, ops, commitment, graft).Ok?
    ensures var r := SpliceAll(env, ops, commitment, graft).value;
      && (forall b :: b in r ==> Fits(env, msg, b))
      && forall x :: x in ReachableAll(r) <==>
        x in ReachableAll(ops) || (AnyContains(ops, commitment) && x in Reachable(graft))
    decreases ops
  {
    hide Fits, ReachableUnder, Reachable, SpliceBranch, BranchContains, Mergeable;
    if ops != [] {
      assert ops == [ops[0]] + ops[1..];
      SpliceBranchAdds(env, msg, ops[0], commitment, graft);
      SpliceAllAdds(env, msg, ops[1..], commitment, graft);
      var b := SpliceBranch(env, ops[0], commitment, graft).value;
      var rest := SpliceAll(env, ops[1..], commitment, graft).value;
      assert ([b] + rest)[1..] == rest;
    }
  }

  lemma {:induction false} SpliceBranchAdds(env: Env, msg: Bytes, b: Branch, commitment: Bytes, graft: Stamp)
    requires graft.msg == commitment && Mergeable(env, graft) && Fits(env, msg, b)
    ensures SpliceBranch(env, b, commitment, graft).Ok?
    ensures var r := SpliceBranch(env, b, commitment, graft).value;
      && Fits(env, msg, r)
      && forall x :: x in ReachableUnder(r) <==>
        x in ReachableUnder(b) || (BranchContains(b, commitment) && x in Reachable(graft))
    decreases b
  {
    hide Reachable, Contains, Mergeable, ApplyOp;
    SpliceAdds(env, b.stamp, commitment, graft);
  }

  // ---------------------------------------------------------------- sorting keeps the meaning

  /** The normal form reaches the same attestations. */
  lemma {:induction false} NormalReaches(s: Stamp, x: Reached)
    ensures x in Reachable(Normal(s)) <==> x in Reachable(s)
    decreases Height(s), 0
  {
    hide Sort, NormalAll, ReachableAll;
    SortWithin(s.ops);
    SortMembers(CompareAttestations, s.attestations);
    var sorted := Sort(CompareBranches, s.ops);
    NormalAllReaches(sorted, MaxHeight(s.ops), x);
    SortMembers(CompareBranches, s.ops);
    ReachableAllMember(sorted, x);
    ReachableAllMember(s.ops, x);
    if i :| 0 <= i < |s.ops| && x in ReachableUnder(s.ops[i]) {
      assert s.ops[i] in sorted;
    }
    if i :| 0 <= i < |sorted| && x in ReachableUnder(sorted[i]) {
      assert sorted[i] in s.ops;
    }
  }

  lemma {:induction false} NormalAllReaches(ops: seq<Branch>, h: nat, x: Reached)
    requires Within(ops, h)
    ensures x in ReachableAll(NormalAll(ops, h)) <==> x in ReachableAll(ops)
    decreases h, 1 + |ops|
  {
    hide Reachable, Normal, Height, NormalAll;
    if ops != [] {
      NormalAllCons(ops, h);
      assert BranchHeight(ops[0]) <= h;
      NormalReaches(ops[0].stamp, x);
      NormalAllReaches(ops[1..], h, x);
    } else {
      assert NormalAll(ops, h) == [];
    }
  }
}
