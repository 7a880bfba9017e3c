/**
  Proof trees (src/phala/anchor.ts:99-122, 245-336, 405-426): operations, the recursive
  reader and writer, detached files, and the round trip between them.
 */
module OtsTree {
  import opened Basics
  import opened Hex
  import opened OtsWire
  import opened OtsOrder
  import opened StableSort

  datatype Op = Op(tag: byte, arg: Option<Bytes>)

  /** A message, the attestations about it, and the operations leading to further messages. */
  datatype Stamp = Stamp(msg: Bytes, attestations: seq<Attestation>, ops: seq<Branch>)

  datatype Branch = Branch(op: Op, stamp: Stamp)

  const OP_SHA1: byte := 0x02
  const OP_RIPEMD160: byte := 0x03
  const OP_SHA256: byte := 0x08
  const OP_KECCAK256: byte := 0x67
  const OP_APPEND: byte := 0xf0
  const OP_PREPEND: byte := 0xf1
  const OP_REVERSE: byte := 0xf2
  const OP_HEXLIFY: byte := 0xf3

  function Reverse(b: Bytes): Bytes {
    if b == [] then [] else Reverse(b[1..]) + [b[0]]
  }

  /** The ASCII bytes of a string of hex digits. */
  function Ascii(s: string): Bytes {
    seq(|s|, i requires 0 <= i < |s| => s[i] as int % 256)
  }

  function Arg(op: Op): Bytes {
    if op.arg.Some? then op.arg.value else []
  }

  /** The meaning of one operation; an unknown one is refused. */
  function ApplyOp(env: Env, op: Op, msg: Bytes): Option<Bytes> {
    if op.tag == OP_SHA256 then Some(env.sha256(msg))
    else if op.tag == OP_SHA1 then Some(env.sha1(msg))
    else if op.tag == OP_RIPEMD160 then Some(env.ripemd160(msg))
    else if op.tag == OP_KECCAK256 then Some(env.keccak256(msg))
    else if op.tag == OP_APPEND then Some(msg + Arg(op))
    else if op.tag == OP_PREPEND then Some(Arg(op) + msg)
    else if op.tag == OP_REVERSE then Some(Reverse(msg))
    else if op.tag == OP_HEXLIFY then Some(Ascii(ToHex(msg)))
    else None
  }

  lemma {:induction false} ReverseSnoc(b: Bytes, x: byte)
    ensures Reverse(b + [x]) == [x] + Reverse(b)
  {
    if b != [] {
      ReverseSnoc(b[1..], x);
      assert (b + [x])[1..] == b[1..] + [x];
    }
  }

  lemma {:induction false} ReverseTwice(b: Bytes)
    ensures Reverse(Reverse(b)) == b && |Reverse(b)| == |b|
  {
    if b != [] {
      ReverseTwice(b[1..]);
      ReverseSnoc(Reverse(b[1..]), b[0]);
      assert b == [b[0]] + b[1..];
    }
  }

  /** What the operations that are not hashes do: append and prepend keep both parts, reversing
      twice is the identity, and hexlifying loses nothing. */
  lemma OpsMeaning(env: Env, msg: Bytes, arg: Bytes)
    ensures var r := ApplyOp(env, Op(OP_APPEND, Some(arg)), msg).value; r[..|msg|] == msg && r[|msg|..] == arg
    ensures var r := ApplyOp(env, Op(OP_PREPEND, Some(arg)), msg).value; r[..|arg|] == arg && r[|arg|..] == msg
    ensures ApplyOp(env, Op(OP_REVERSE, None), ApplyOp(env, Op(OP_REVERSE, None), msg).value) == Some(msg)
    ensures var r := ApplyOp(env, Op(OP_HEXLIFY, None), msg).value;
      |r| == 2 * |msg| && FromHex(seq(|r|, i requires 0 <= i < |r| => r[i] as char)) == Some(msg)
  {
    hide Reverse, ToHex, FromHex;
    ReverseTwice(msg);
    ToHexDecodes(msg);
    var hex := ToHex(msg);
    var r := Ascii(hex);
    assert forall i :: 0 <= i < |hex| ==> IsLower(hex[i]) && hex[i] as int < 128;
    assert seq(|r|, i requires 0 <= i < |r| => r[i] as char) == hex;
  }

  function CompareOps(a: Op, b: Op): int {
    if a.tag != b.tag then (a.tag as int) - (b.tag as int) else CompareSeq(Arg(a), Arg(b))
  }

  function CompareBranches(a: Branch, b: Branch): int {
    CompareOps(a.op, b.op)
  }

  lemma OrdersTotal()
    ensures Total(CompareAttestations) && Total(CompareBranches)
  {
    hide CompareSeq;
    forall a, b
      ensures CompareAttestations(a, b) <= 0 || CompareAttestations(b, a) <= 0
    {
      CompareSeqFlips(Tag(a), Tag(b));
      if a.Pending? && b.Pending? { CompareSeqFlips(a.uri, b.uri); }
      if a.Unknown? && b.Unknown? { CompareSeqFlips(a.payload, b.payload); }
    }
    forall a, b
      ensures CompareBranches(a, b) <= 0 || CompareBranches(b, a) <= 0
    {
      CompareSeqFlips(Arg(a.op), Arg(b.op));
    }
  }

  /** The operation order is transitive and equates exactly the branches that write the same operation. */
  lemma BranchOrder(a: Branch, b: Branch, c: Branch)
    ensures CompareBranches(a, b) <= 0 && CompareBranches(b, c) <= 0 ==> CompareBranches(a, c) <= 0
    ensures CompareBranches(a, b) == 0 <==> a.op.tag == b.op.tag && Arg(a.op) == Arg(b.op)
  {
    hide CompareSeq;
    CompareSeqEqual(Arg(a.op), Arg(b.op));
    if CompareSeq(Arg(a.op), Arg(b.op)) <= 0 && CompareSeq(Arg(b.op), Arg(c.op)) <= 0 {
      CompareSeqTransitive(Arg(a.op), Arg(b.op), Arg(c.op));
    }
  }

  // ---------------------------------------------------------------- writing

  function Height(s: Stamp): nat {
    1 + MaxHeight(s.ops)
  }

  function BranchHeight(b: Branch): nat {
    Height(b.stamp)
  }

  function MaxHeight(ops: seq<Branch>): (h: nat)
    ensures forall i :: 0 <= i < |ops| ==> BranchHeight(ops[i]) <= h
  {
    if ops == [] then 0
    else
      assert forall i :: 1 <= i < |ops| ==> ops[i] == ops[1..][i - 1];
      var h, rest := BranchHeight(ops[0]), MaxHeight(ops[1..]);
      if h > rest then h else rest
  }

  predicate Within(ops: seq<Branch>, h: nat) {
    forall i :: 0 <= i < |ops| ==> BranchHeight(ops[i]) <= h
  }

  lemma SortWithin(ops: seq<Branch>)
    ensures Within(Sort(CompareBranches, ops), MaxHeight(ops))
  {
    hide Sort, MaxHeight, BranchHeight;
    var sorted := Sort(CompareBranches, ops);
    SortMembers(CompareBranches, ops);
    forall i | 0 <= i < |sorted|
      ensures BranchHeight(sorted[i]) <= MaxHeight(ops)
    {
      assert sorted[i] in ops;
    }
  }

  function WriteOp(op: Op): (b: Bytes)
    ensures b != []
  {
    [op.tag] + (if op.arg.Some? then VarBytes(op.arg.value) else [])
  }

  /** Attestations then operations, each sorted; None where the source throws on an empty node. */
  function WriteStamp(env: Env, s: Stamp): Option<Bytes>
    decreases Height(s), 0
  {
    SortWithin(s.ops);
    WriteItems(env, Sort(CompareAttestations, s.attestations), Sort(CompareBranches, s.ops), MaxHeight(s.ops))
  }

  /** Every item but the last is preceded by 0xff. */
  function WriteItems(env: Env, atts: seq<Attestation>, ops: seq<Branch>, ghost h: nat): Option<Bytes>
    requires Within(ops, h)
    decreases h, 1 + |atts| + |ops|
  {
    if |atts| > 0 then
      var item := [0] + WriteAttestation(env, atts[0]);
      if |atts| + |ops| == 1 then Some(item)
      else
        match WriteItems(env, atts[1..], ops, h)
        case None => None
        case Some(rest) => Some([0xff] + item + rest)
    else if |ops| > 0 then
      match WriteStamp(env, ops[0].stamp)
      case None => None
      case Some(below) =>
        var item := WriteOp(ops[0].op) + below;
        if |ops| == 1 then Some(item)
        else
          match WriteItems(env, [], ops[1..], h)
          case None => None
          case Some(rest) => Some([0xff] + item + rest)
    else None
  }

  // ---------------------------------------------------------------- reading

  function ReadOp(tag: byte, input: Bytes): (p: Parsed<Op>)
    ensures p.Got? ==> |p.rest| <= |input|
  {
    if tag == OP_APPEND || tag == OP_PREPEND then
      match ReadVarBytes(input)
      case Failed(e) => Failed(e)
      case Got(arg, rest) => Got(Op(tag, Some(arg)), rest)
    else Got(Op(tag, None), input)
  }

  function ReadStamp(env: Env, input: Bytes, msg: Bytes): (p: Parsed<Stamp>)
    ensures p.Got? ==> |p.rest| < |input|
    decreases |input|, 2
  {
    ReadItems(env, input, Stamp(msg, [], []))
  }

  /** The `while (tag === 0xff)` loop; the sub-message is derived, never read. */
  function ReadItems(env: Env, input: Bytes, acc: Stamp): (p: Parsed<Stamp>)
    ensures p.Got? ==> |p.rest| < |input|
    decreases |input|, 1
  {
    if input == [] then Failed(EndsMidStructure)
    else if input[0] != 0xff then ReadItem(env, input[0], input[1..], acc)
    else if |input| == 1 then Failed(EndsMidStructure)
    else
      match ReadItem(env, input[1], input[2..], acc)
      case Failed(e) => Failed(e)
      case Got(acc', rest) => ReadItems(env, rest, acc')
  }

  /** The closure `one`: an attestation, or an operation and the tree under it. */
  function ReadItem(env: Env, tag: byte, input: Bytes, acc: Stamp): (p: Parsed<Stamp>)
    ensures p.Got? ==> |p.rest| <= |input|
    decreases |input|, 3
  {
    if tag == 0 then
      match ReadAttestation(env, input)
      case Failed(e) => Failed(e)
      case Got(a, rest) => Got(acc.(attestations := acc.attestations + [a]), rest)
    else
      match ReadOp(tag, input)
      case Failed(e) => Failed(e)
      case Got(op, rest) =>
        match ApplyOp(env, op, acc.msg)
        case None => Failed(UnknownOperation)
        case Some(msg) =>
          match ReadStamp(env, rest, msg)
          case Failed(e) => Failed(e)
          case Got(below, rest') => Got(acc.(ops := acc.ops + [Branch(op, below)]), rest')
  }

  // ---------------------------------------------------------------- well-formed trees

  /** Sub-messages are derived by their operation, all the way down. */
  ghost predicate Derived(env: Env, s: Stamp)
    decreases s
  {
    forall b :: b in s.ops ==> ApplyOp(env, b.op, s.msg) == Some(b.stamp.msg) && Derived(env, b.stamp)
  }

  /** Every node says something. */
  ghost predicate NonEmpty(s: Stamp)
    decreases s
  {
    |s.attestations| + |s.ops| > 0 && forall b :: b in s.ops ==> NonEmpty(b.stamp)
  }

  ghost predicate OpFits(op: Op) {
    (op.arg.Some? <==> op.tag == OP_APPEND || op.tag == OP_PREPEND) && |Arg(op)| < MAX_SAFE
  }

  /** Nothing in the tree is lost on the wire. */
  ghost predicate Writable(env: Env, s: Stamp)
    decreases s
  {
    && (forall a :: a in s.attestations ==> Faithful(env, a))
    && (forall b :: b in s.ops ==> OpFits(b.op) && Writable(env, b.stamp))
  }

  ghost predicate WellFormed(env: Env, s: Stamp) {
    Derived(env, s) && NonEmpty(s) && Writable(env, s)
  }

  lemma WellFormedBelow(env: Env, s: Stamp, b: Branch)
    requires WellFormed(env, s) && b in s.ops
    ensures WellFormed(env, b.stamp) && OpFits(b.op) && ApplyOp(env, b.op, s.msg) == Some(b.stamp.msg)
  {
  }

  /** The tree with every node's items in serialisation order. */
  function Normal(s: Stamp): Stamp
    decreases Height(s), 0
  {
    SortWithin(s.ops);
    Stamp(s.msg, Sort(CompareAttestations, s.attestations), NormalAll(Sort(CompareBranches, s.ops), MaxHeight(s.ops)))
  }

  function NormalAll(ops: seq<Branch>, ghost h: nat): (r: seq<Branch>)
    requires Within(ops, h)
    ensures |r| == |ops|
    ensures forall i :: 0 <= i < |ops| ==> r[i] == Branch(ops[i].op, Normal(ops[i].stamp))
    decreases h, 1 + |ops|
  {
    if ops == [] then [] else [Branch(ops[0].op, Normal(ops[0].stamp))] + NormalAll(ops[1..], h)
  }

  // ---------------------------------------------------------------- round trip

  lemma OpReads(op: Op, rest: Bytes)
    requires OpFits(op)
    ensures WriteOp(op) + rest == [op.tag] + (WriteOp(op)[1..] + rest)
    ensures ReadOp(op.tag, WriteOp(op)[1..] + rest) == Got(op, rest)
  {
    hide VarBytes, ReadVarBytes;
    if op.arg.Some? {
      VarBytesReads(op.arg.value, rest);
      assert WriteOp(op)[1..] == VarBytes(op.arg.value);
    } else {
      assert WriteOp(op)[1..] + rest == rest;
    }
  }

  /** One item, as it stands before or without a separator. */
  lemma AttestationItemReads(env: Env, a: Attestation, acc: Stamp, rest: Bytes)
    requires Faithful(env, a)
    ensures var item := [0] + WriteAttestation(env, a);
      ReadItem(env, item[0], item[1..] + rest, acc) == Got(acc.(attestations := acc.attestations + [a]), rest)
  {
    hide WriteAttestation, ReadAttestation, Faithful;
    AttestationReads(env, a, rest);
    assert ([0] + WriteAttestation(env, a))[1..] == WriteAttestation(env, a);
  }

  lemma BranchItemReads(env: Env, b: Branch, below: Bytes, under: Stamp, acc: Stamp, rest: Bytes)
    requires OpFits(b.op) && ApplyOp(env, b.op, acc.msg) == Some(b.stamp.msg)
    requires ReadStamp(env, below + rest, b.stamp.msg) == Got(under, rest)
    ensures var item := WriteOp(b.op) + below;
      ReadItem(env, item[0], item[1..] + rest, acc) == Got(acc.(ops := acc.ops + [Branch(b.op, under)]), rest)
  {
    hide ReadStamp, ReadOp, WriteOp, OpFits;
    OpReads(b.op, below + rest);
    OpTagKnown(env, b.op, acc.msg);
    var item := WriteOp(b.op) + below;
    assert item[1..] + rest == WriteOp(b.op)[1..] + (below + rest);
  }

  lemma OpTagKnown(env: Env, op: Op, msg: Bytes)
    requires ApplyOp(env, op, msg).Some?
    ensures op.tag != 0 && op.tag != 0xff && WriteOp(op)[0] == op.tag
  {
  }

  /** The last item ends the list; any other is followed by the rest of the list. */
  lemma LastItem(env: Env, item: Bytes, acc: Stamp, acc': Stamp, rest: Bytes)
    requires item != [] && item[0] != 0xff
    requires ReadItem(env, item[0], item[1..] + rest, acc) == Got(acc', rest)
    ensures ReadItems(env, item + rest, acc) == Got(acc', rest)
  {
    hide ReadItem;
    assert (item + rest)[1..] == item[1..] + rest;
  }

  lemma EarlierItem(env: Env, item: Bytes, acc: Stamp, acc': Stamp, others: Bytes, rest: Bytes)
    requires item != []
    requires ReadItem(env, item[0], item[1..] + (others + rest), acc) == Got(acc', others + rest)
    ensures ReadItems(env, [0xff] + item + others + rest, acc) == ReadItems(env, others + rest, acc')
  {
    hide ReadItem;
    var input := [0xff] + item + others + rest;
    assert input[2..] == item[1..] + (others + rest);
  }

  /** Reading what was written gives the tree in normal form and leaves exactly what follows it. */
  lemma {:induction false} StampReads(env: Env, s: Stamp, rest: Bytes)
    requires WellFormed(env, s)
    ensures WriteStamp(env, s).Some?
    ensures ReadStamp(env, WriteStamp(env, s).value + rest, s.msg) == Got(Normal(s), rest)
    decreases Height(s), 0
  {
    hide WriteItems, ReadItems, NormalAll, Sort;
    var atts, ops := Sort(CompareAttestations, s.attestations), Sort(CompareBranches, s.ops);
    SortMembers(CompareAttestations, s.attestations);
    SortMembers(CompareBranches, s.ops);
    SortWithin(s.ops);
    var h := MaxHeight(s.ops);
    forall b | b in ops
      ensures GoesUnder(env, s.msg, b)
    {
      WellFormedBelow(env, s, b);
    }
    ItemsRead(env, atts, ops, h, Stamp(s.msg, [], []), rest);
    assert [] + atts == atts && [] + NormalAll(ops, h) == NormalAll(ops, h);
  }

  ghost predicate GoesUnder(env: Env, msg: Bytes, b: Branch) {
    WellFormed(env, b.stamp) && OpFits(b.op) && ApplyOp(env, b.op, msg) == Some(b.stamp.msg)
  }

  lemma {:induction false} ItemsRead(env: Env, atts: seq<Attestation>, ops: seq<Branch>, h: nat, acc: Stamp,
      rest: Bytes)
    requires |atts| + |ops| > 0
    requires forall a :: a in atts ==> Faithful(env, a)
    requires Within(ops, h)
    requires forall b :: b in ops ==> GoesUnder(env, acc.msg, b)
    ensures WriteItems(env, atts, ops, h).Some?
    ensures ReadItems(env, WriteItems(env, atts, ops, h).value + rest, acc)
         == Got(Stamp(acc.msg, acc.attestations + atts, acc.ops + NormalAll(ops, h)), rest)
    decreases h, 1 + |atts| + |ops|
  {
    hide Faithful, WriteAttestation, ReadItem, ReadItems, WriteStamp, ReadStamp, WellFormed, WriteOp, ApplyOp, OpFits;
    if |atts| > 0 {
      var item := [0] + WriteAttestation(env, atts[0]);
      var acc' := acc.(attestations := acc.attestations + [atts[0]]);
      assert acc'.attestations + atts[1..] == acc.attestations + atts;
      if |atts| + |ops| == 1 {
        AttestationItemReads(env, atts[0], acc, rest);
        LastItem(env, item, acc, acc', rest);
        assert atts == [atts[0]];
        assert NormalAll(ops, h) == [] && acc.ops + [] == acc.ops;
      } else {
        ItemsRead(env, atts[1..], ops, h, acc', rest);
        var others := WriteItems(env, atts[1..], ops, h).value;
        AttestationItemReads(env, atts[0], acc, others + rest);
        EarlierItem(env, item, acc, acc', others, rest);
      }
    } else {
      BranchesRead(env, ops, h, acc, rest);
      assert acc.attestations + [] == acc.attestations;
    }
  }

  lemma NormalAllCons(ops: seq<Branch>, h: nat)
    requires Within(ops, h) && |ops| > 0
    ensures Within(ops[1..], h)
    ensures NormalAll(ops, h) == [Branch(ops[0].op, Normal(ops[0].stamp))] + NormalAll(ops[1..], h)
    ensures |ops| == 1 ==> NormalAll(ops, h) == [Branch(ops[0].op, Normal(ops[0].stamp))]
  {
    hide Normal;
    assert forall i :: 0 <= i < |ops[1..]| ==> ops[1..][i] == ops[i + 1];
  }

  lemma {:induction false} BranchesRead(env: Env, ops: seq<Branch>, h: nat, acc: Stamp, rest: Bytes)
    requires |ops| > 0
    requires Within(ops, h)
    requires forall b :: b in ops ==> GoesUnder(env, acc.msg, b)
    ensures WriteItems(env, [], ops, h).Some?
    ensures ReadItems(env, WriteItems(env, [], ops, h).value + rest, acc)
         == Got(Stamp(acc.msg, acc.attestations, acc.ops + NormalAll(ops, h)), rest)
    decreases h, |ops|
  {
    hide ReadItem, ReadItems, WriteStamp, ReadStamp, Normal, NormalAll, WellFormed, WriteOp, ApplyOp, OpFits;
    var b := ops[0];
    NormalAllCons(ops, h);
    assert BranchHeight(b) <= h && GoesUnder(env, acc.msg, ops[0]);
    var under := Normal(b.stamp);
    var acc' := acc.(ops := acc.ops + [Branch(b.op, under)]);
    OpTagKnown(env, b.op, acc.msg);
    StampReads(env, b.stamp, rest);
    var below := WriteStamp(env, b.stamp).value;
    var item := WriteOp(b.op) + below;
    if |ops| == 1 {
      BranchItemReads(env, b, below, under, acc, rest);
      LastItem(env, item, acc, acc', rest);
    } else {
      BranchesRead(env, ops[1..], h, acc', rest);
      var others := WriteItems(env, [], ops[1..], h).value;
      StampReads(env, b.stamp, others + rest);
      BranchItemReads(env, b, below, under, acc, others + rest);
      EarlierItem(env, item, acc, acc', others, rest);
      assert acc'.ops + NormalAll(ops[1..], h) == acc.ops + NormalAll(ops, h);
    }
  }

  // ---------------------------------------------------------------- writing again

  lemma {:induction false} NormalAllSorted(ops: seq<Branch>, h: nat)
    requires Within(ops, h) && SortedBy(CompareBranches, ops)
    ensures SortedBy(CompareBranches, NormalAll(ops, h))
    decreases |ops|
  {
    if |ops| > 1 {
      var r, init := NormalAll(ops, h), ops[..|ops| - 1];
      NormalAllSorted(init, h);
      assert r[..|ops| - 1] == NormalAll(init, h);
    }
  }

  lemma NormalSorts(s: Stamp)
    ensures Sort(CompareAttestations, Normal(s).attestations) == Normal(s).attestations
    ensures Sort(CompareBranches, Normal(s).ops) == Normal(s).ops
  {
    hide Sort, NormalAll, SortedBy;
    OrdersTotal();
    SortSorts(CompareAttestations, s.attestations);
    SortSorts(CompareBranches, s.ops);
    SortWithin(s.ops);
    NormalAllSorted(Sort(CompareBranches, s.ops), MaxHeight(s.ops));
    SortSorted(CompareAttestations, Normal(s).attestations);
    SortSorted(CompareBranches, Normal(s).ops);
  }

  /** The normal form is written as the same bytes, so parsing and writing again changes nothing. */
  lemma {:induction false} NormalWrites(env: Env, s: Stamp)
    ensures WriteStamp(env, Normal(s)) == WriteStamp(env, s)
    decreases Height(s), 0
  {
    hide Sort, NormalAll, WriteItems;
    SortWithin(s.ops);
    NormalSorts(s);
    SortWithin(Normal(s).ops);
    ItemsNormal(env, Sort(CompareAttestations, s.attestations), Sort(CompareBranches, s.ops), MaxHeight(s.ops),
      MaxHeight(Normal(s).ops));
  }

  lemma {:induction false} ItemsNormal(env: Env, atts: seq<Attestation>, ops: seq<Branch>, h: nat, h': nat)
    requires Within(ops, h) && Within(NormalAll(ops, h), h')
    ensures WriteItems(env, atts, NormalAll(ops, h), h') == WriteItems(env, atts, ops, h)
    decreases h, 1 + |atts| + |ops|
  {
    hide WriteStamp, WriteAttestation, Normal, WriteOp, Height;
    var ops' := NormalAll(ops, h);
    if |atts| > 0 {
      if |atts| + |ops| > 1 {
        ItemsNormal(env, atts[1..], ops, h, h');
      }
    } else if |ops| > 0 {
      assert BranchHeight(ops[0]) <= h;
      NormalWrites(env, ops[0].stamp);
      assert ops'[1..] == NormalAll(ops[1..], h);
      assert Within(ops'[1..], h') by {
        assert forall i :: 0 <= i < |ops'[1..]| ==> ops'[1..][i] == ops'[i + 1];
      }
      ItemsNormal(env, [], ops[1..], h, h');
    }
  }

  // ---------------------------------------------------------------- whatever is read is derived

  ghost predicate Grown(env: Env, s: Stamp) {
    Derived(env, s) && forall b :: b in s.ops ==> NonEmpty(b.stamp)
  }

  /** Any accepted input, tampered or not, yields messages derived from the digest by the operations. */
  lemma {:induction false} ReadDerived(env: Env, input: Bytes, msg: Bytes)
    requires ReadStamp(env, input, msg).Got?
    ensures var s := ReadStamp(env, input, msg).value; s.msg == msg && Derived(env, s) && NonEmpty(s)
    decreases |input|, 2
  {
    ItemsDerived(env, input, Stamp(msg, [], []));
  }

  lemma {:induction false} ItemsDerived(env: Env, input: Bytes, acc: Stamp)
    requires Grown(env, acc) && ReadItems(env, input, acc).Got?
    ensures var s := ReadItems(env, input, acc).value; s.msg == acc.msg && Derived(env, s) && NonEmpty(s)
    decreases |input|, 1
  {
    hide ReadItem, Derived;
    if input[0] != 0xff {
      ItemDerived(env, input[0], input[1..], acc);
    } else {
      ItemDerived(env, input[1], input[2..], acc);
      var p := ReadItem(env, input[1], input[2..], acc);
      ItemsDerived(env, p.rest, p.value);
    }
  }

  lemma {:induction false} ItemDerived(env: Env, tag: byte, input: Bytes, acc: Stamp)
    requires Grown(env, acc) && ReadItem(env, tag, input, acc).Got?
    ensures var s := ReadItem(env, tag, input, acc).value;
      s.msg == acc.msg && Grown(env, s) && |s.attestations| + |s.ops| > 0
    decreases |input|, 3
  {
    hide ReadStamp, ReadOp, ReadAttestation, ApplyOp;
    if tag != 0 {
      var op := ReadOp(tag, input);
      ReadDerived(env, op.rest, ApplyOp(env, op.value, acc.msg).value);
    }
  }

  // ---------------------------------------------------------------- detached proof files

  const HEADER_MAGIC: Bytes := [
    0x00, 0x4f, 0x70, 0x65, 0x6e, 0x54, 0x69, 0x6d, 0x65, 0x73, 0x74, 0x61, 0x6d, 0x70, 0x73, 0x00,
    0x00, 0x50, 0x72, 0x6f, 0x6f, 0x66, 0x00, 0xbf, 0x89, 0xe2, 0xe8, 0x84, 0xe8, 0x92, 0x94]

  const MAJOR_VERSION: nat := 1

  datatype Proof = Proof(digest: Bytes, timestamp: Stamp)

  function SerialiseProof(env: Env, digest: Bytes, s: Stamp): Option<Bytes> {
    match WriteStamp(env, s)
    case None => None
    case Some(tree) => Some(HEADER_MAGIC + VarUint(MAJOR_VERSION) + [OP_SHA256] + digest + tree)
  }

  /** Bytes after the tree are ignored, as in the source. */
  function ParseProof(env: Env, bytes: Bytes): Result<Proof, Error> {
    match Take(bytes, |HEADER_MAGIC|)
    case Failed(e) => Err(e)
    case Got(magic, rest) =>
      if magic != HEADER_MAGIC then Err(BadMagic) else
      match ReadVarUint(rest)
      case Failed(e) => Err(e)
      case Got(version, rest) =>
        if version != MAJOR_VERSION then Err(BadVersion)
        else if rest == [] then Err(EndsMidStructure)
        else
          match Take(rest[1..], if rest[0] == OP_SHA256 || rest[0] == OP_KECCAK256 then 32 else 20)
          case Failed(e) => Err(e)
          case Got(digest, rest) =>
            match ReadStamp(env, rest, digest)
            case Failed(e) => Err(e)
            case Got(s, _) => Ok(Proof(digest, s))
  }

  /** Round trip: a written proof parses to its digest and its tree in normal form, and writing
      that again gives the same bytes. */
  lemma ProofRoundTrip(env: Env, digest: Bytes, s: Stamp)
    requires |digest| == 32 && s.msg == digest && WellFormed(env, s)
    ensures var file := SerialiseProof(env, digest, s);
      && file.Some?
      && ParseProof(env, file.value) == Ok(Proof(digest, Normal(s)))
      && SerialiseProof(env, digest, Normal(s)) == file
  {
    hide WriteStamp, ReadStamp, VarUint, ReadVarUint, Normal, WellFormed;
    StampReads(env, s, []);
    NormalWrites(env, s);
    var tree := WriteStamp(env, s).value;
    var file := SerialiseProof(env, digest, s).value;
    var rest1 := [OP_SHA256] + digest + tree;
    assert file == HEADER_MAGIC + (VarUint(MAJOR_VERSION) + rest1);
    TakeReads(HEADER_MAGIC, VarUint(MAJOR_VERSION) + rest1);
    VarUintReads(MAJOR_VERSION, rest1);
    assert rest1[1..] == digest + tree;
    TakeReads(digest, tree);
    assert tree + [] == tree;
  }

  /** Nothing parses into a tree about another message. */
  lemma ParsedIsDerived(env: Env, bytes: Bytes)
    requires ParseProof(env, bytes).Ok?
    ensures var p := ParseProof(env, bytes).value;
      p.timestamp.msg == p.digest && Derived(env, p.timestamp) && NonEmpty(p.timestamp)
  {
    hide ReadStamp, ReadVarUint, Derived, NonEmpty;
    var rest := ReadVarUint(Take(bytes, |HEADER_MAGIC|).rest).rest;
    var digest := Take(rest[1..], if rest[0] == OP_SHA256 || rest[0] == OP_KECCAK256 then 32 else 20);
    ReadDerived(env, digest.rest, digest.value);
  }
}
