/**
  The bytes of an OpenTimestamps proof, spelled out (src/phala/anchor.ts:38-56, 182-272, 302-426): which
  operation a tag stands for, the order in which a node's items are written, their separators, and the
  head of a file. Nothing here is said in terms of a comparison function.
 */
module OtsFormat {
  import opened Basics
  import Hex
  import opened OtsWire
  import opened OtsOrder
  import opened StableSort
  import opened OtsTree

  // ---------------------------------------------------------------- operations and integers

  /** What each tag does to a message; any other is refused. */
  lemma OpTable(env: Env, msg: Bytes, arg: Option<Bytes>, tag: byte)
    ensures ApplyOp(env, Op(0x08, arg), msg) == Some(env.sha256(msg))
    ensures ApplyOp(env, Op(0x02, arg), msg) == Some(env.sha1(msg))
    ensures ApplyOp(env, Op(0x03, arg), msg) == Some(env.ripemd160(msg))
    ensures ApplyOp(env, Op(0x67, arg), msg) == Some(env.keccak256(msg))
    ensures arg.Some? ==> ApplyOp(env, Op(0xf0, arg), msg) == Some(msg + arg.value)
    ensures arg.Some? ==> ApplyOp(env, Op(0xf1, arg), msg) == Some(arg.value + msg)
    ensures ApplyOp(env, Op(tag, arg), msg).None? <==> tag !in {0x08, 0x02, 0x03, 0x67, 0xf0, 0xf1, 0xf2, 0xf3}
  {
    hide Reverse, Ascii;
  }

  /** Reversing gives the bytes from the last to the first, hexlifying two digits for each, the high one first. */
  lemma RewritesMean(env: Env, msg: Bytes, arg: Option<Bytes>)
    ensures var r := ApplyOp(env, Op(0xf2, arg), msg);
      r.Some? && |r.value| == |msg| && forall i :: 0 <= i < |msg| ==> r.value[i] == msg[|msg| - 1 - i]
    ensures var r := ApplyOp(env, Op(0xf3, arg), msg);
      && r.Some? && |r.value| == 2 * |msg|
      && forall i :: 0 <= i < |msg| ==>
        r.value[2 * i] == Hex.DigitCode(msg[i] / 16) && r.value[2 * i + 1] == Hex.DigitCode(msg[i] % 16)
  {
    hide Reverse, Hex.ToHex;
    ReverseAt(msg);
    Hex.ToHexMeans(msg);
  }

  lemma {:induction false} ReverseAt(b: Bytes)
    ensures |Reverse(b)| == |b| && forall i :: 0 <= i < |b| ==> Reverse(b)[i] == b[|b| - 1 - i]
    decreases |b|
  {
    if b != [] {
      ReverseAt(b[1..]);
    }
  }

  /** An integer is written in groups of seven bits, the low ones first, the high bit set on all but the last. */
  lemma {:induction false} VarUintMeans(n: nat)
    ensures var b := VarUint(n);
      && (forall i :: 0 <= i < |b| ==> (b[i] >= 128 <==> i < |b| - 1))
      && b[0] % 128 == n % 128 && (n < 128 ==> b == [n]) && (n >= 128 ==> b[1..] == VarUint(n / 128))
    decreases n
  {
    if n >= 128 {
      VarUintMeans(n / 128);
    }
  }

  /** Reading one: up to the first byte without the high bit, which must be among the first nine; the first
      byte gives the low seven bits, what follows the rest. */
  lemma {:induction false} VarUintReadsGroups(input: Bytes, k: nat, group: nat)
    requires k < |input| && input[k] < 128 && (forall i :: 0 <= i < k ==> input[i] >= 128) && group <= 8
    ensures var r := ReadVarUint(input, group);
      && (group + k <= 8 ==> r.Got? && r.rest == input[k + 1..] && r.value % 128 == input[0] % 128)
      && (group + k <= 8 && k > 0 ==> r.value / 128 == ReadVarUint(input[1..], group + 1).value)
      && (group + k <= 8 && k == 0 ==> r.value == input[0])
      && (group + k > 8 ==> r == Failed(VarUintTooLarge))
    decreases k
  {
    hide ReadVarUint;
    VarUintGroup(input, group);
    if k > 0 && group < 8 {
      VarUintReadsGroups(input[1..], k - 1, group + 1);
      assert input[1..][k - 1 + 1..] == input[k + 1..];
    }
  }

  lemma VarUintGroup(input: Bytes, group: nat)
    requires input != []
    ensures var r, more := ReadVarUint(input, group), ReadVarUint(input[1..], group + 1);
      && (input[0] < 128 ==> r == Got(input[0], input[1..]))
      && (input[0] >= 128 && group >= 8 ==> r == Failed(VarUintTooLarge))
      && (input[0] >= 128 && group < 8 && more.Failed? ==> r == Failed(more.error))
      && (input[0] >= 128 && group < 8 && more.Got? ==>
            r.Got? && r.rest == more.rest && r.value % 128 == input[0] % 128 && r.value / 128 == more.value)
  {
  }

  /** Without such a byte: too large after nine bytes, otherwise cut off. */
  lemma {:induction false} VarUintCutOff(input: Bytes, group: nat)
    requires (forall i :: 0 <= i < |input| ==> input[i] >= 128) && group <= 8
    ensures ReadVarUint(input, group) == Failed(if group + |input| > 8 then VarUintTooLarge else EndsMidStructure)
    decreases |input|
  {
    if input != [] && group < 8 {
      VarUintCutOff(input[1..], group + 1);
    }
  }

  // ---------------------------------------------------------------- orders

  /** A prefix comes first; otherwise the smaller element at the first difference. */
  ghost predicate LexBefore(a: seq<nat>, b: seq<nat>) {
    a <= b || exists k :: 0 <= k < |a| && k < |b| && a[..k] == b[..k] && a[k] < b[k]
  }

  lemma LexTail(a: seq<nat>, b: seq<nat>)
    requires a != [] && b != []
    ensures LexBefore(a, b) <==> a[0] < b[0] || (a[0] == b[0] && LexBefore(a[1..], b[1..]))
  {
    var u, v := a[1..], b[1..];
    assert a == [a[0]] + u && b == [b[0]] + v;
    if a[0] < b[0] {
      assert a[..0] == b[..0];
    }
    if k :| 0 <= k < |u| && k < |v| && u[..k] == v[..k] && u[k] < v[k] {
      if a[0] == b[0] {
        assert a[..k + 1] == [a[0]] + u[..k] && b[..k + 1] == [b[0]] + v[..k];
        assert a[k + 1] < b[k + 1];
      }
    }
    if k :| 0 <= k < |a| && k < |b| && a[..k] == b[..k] && a[k] < b[k] {
      if k > 0 {
        assert a[0] == a[..k][0] == b[..k][0] == b[0];
        assert u[..k - 1] == a[..k][1..] && v[..k - 1] == b[..k][1..];
        assert u[k - 1] < v[k - 1];
      }
    }
  }

  lemma {:induction false} CompareSeqMeans(a: seq<nat>, b: seq<nat>)
    ensures CompareSeq(a, b) <= 0 <==> LexBefore(a, b)
    decreases |a|
  {
    hide LexBefore;
    LexEnds(a, b);
    if a != [] && b != [] {
      LexTail(a, b);
      CompareSeqMeans(a[1..], b[1..]);
    }
  }

  lemma LexEnds(a: seq<nat>, b: seq<nat>)
    ensures a == [] ==> LexBefore(a, b)
    ensures a != [] && b == [] ==> !LexBefore(a, b)
  {
  }

  /** By tag, then by argument. */
  ghost predicate OpBefore(a: Op, b: Op) {
    a.tag < b.tag || (a.tag == b.tag && LexBefore(Arg(a), Arg(b)))
  }

  lemma BranchesMean(a: Branch, b: Branch)
    ensures CompareBranches(a, b) <= 0 <==> OpBefore(a.op, b.op)
  {
    hide CompareSeq, LexBefore;
    CompareSeqMeans(Arg(a.op), Arg(b.op));
  }

  /** The eight bytes that name a kind of attestation. */
  function KindTag(a: Attestation): Bytes {
    match a
    case Pending(_) => [0x83, 0xdf, 0xe3, 0x0d, 0x2e, 0xf9, 0x0c, 0x8e]
    case Bitcoin(_) => [0x05, 0x88, 0x96, 0x0d, 0x73, 0xd7, 0x19, 0x01]
    case Litecoin(_) => [0x06, 0x86, 0x9a, 0x0d, 0x73, 0xd7, 0x1b, 0x45]
    case Ethereum(_) => [0x30, 0xfe, 0x80, 0x87, 0xb5, 0xc7, 0xea, 0xd7]
    case Unknown(tag, _) => tag
  }

  /** By kind, in the order of their tags; pending ones by URI, blockchain ones by height, others by payload. */
  ghost predicate AttestationBefore(a: Attestation, b: Attestation) {
    if KindTag(a) != KindTag(b) then LexBefore(KindTag(a), KindTag(b))
    else
      match (a, b)
      case (Pending(u), Pending(v)) => LexBefore(u, v)
      case (Bitcoin(m), Bitcoin(n)) => m <= n
      case (Litecoin(m), Litecoin(n)) => m <= n
      case (Ethereum(m), Ethereum(n)) => m <= n
      case (Unknown(_, p), Unknown(_, q)) => LexBefore(p, q)
      case _ => false
  }

  lemma AttestationsMean(a: Attestation, b: Attestation)
    requires TagFits(a) && TagFits(b)
    ensures CompareAttestations(a, b) <= 0 <==> AttestationBefore(a, b)
  {
    hide CompareSeq, LexBefore;
    CompareAsPair(a, b);
    CompareSeqMeans(Tag(a), Tag(b));
    CompareSeqMeans(Detail(a), Detail(b));
    CompareSeqEqual(Tag(a), Tag(b));
    if !a.Pending? && !a.Unknown? && !b.Pending? && !b.Unknown? {
      CompareSingle(a.height, b.height);
    }
    KindTags(a);
    KindTags(b);
  }

  lemma KindTags(a: Attestation)
    ensures KindTag(a) == Tag(a)
  {
  }

  // ---------------------------------------------------------------- what is written

  /** Two elements of a sorted list, however far apart. */
  lemma {:induction false} SortedPair<T(!new)>(cmp: (T, T) -> int, s: seq<T>, i: nat, j: nat)
    requires SortedBy(cmp, s) && i < j < |s|
    requires forall x, y, z :: x in s && y in s && z in s && cmp(x, y) <= 0 && cmp(y, z) <= 0 ==> cmp(x, z) <= 0
    ensures cmp(s[i], s[j]) <= 0
    decreases |s|
  {
    var last := |s| - 1;
    if j < last {
      SortedPair(cmp, s[..last], i, j);
    } else if i < last - 1 {
      SortedPair(cmp, s[..last], i, last - 1);
      assert s[i] in s && s[last - 1] in s && s[last] in s;
    }
  }

  /** The same branches in some order, each with its tree in normal form. */
  ghost predicate Rearranged(before: seq<Branch>, after: seq<Branch>) {
    exists moved: seq<Branch> ::
      && multiset(moved) == multiset(before) && |after| == |moved|
      && forall i :: 0 <= i < |moved| ==> after[i] == Branch(moved[i].op, Normal(moved[i].stamp))
  }

  /** In the normal form, which is what parsing the written bytes gives back, attestations and operations are
      those of the node, in this order. */
  lemma NormalOrder(s: Stamp)
    requires forall a :: a in s.attestations ==> TagFits(a)
    ensures var n := Normal(s);
      && n.msg == s.msg && multiset(n.attestations) == multiset(s.attestations) && Rearranged(s.ops, n.ops)
      && (forall i, j :: 0 <= i < j < |n.attestations| ==> AttestationBefore(n.attestations[i], n.attestations[j]))
      && (forall i, j :: 0 <= i < j < |n.ops| ==> OpBefore(n.ops[i].op, n.ops[j].op))
  {
    hide Sort, NormalAll, SortedBy, CompareAttestations, AttestationBefore, OpBefore, TagFits;
    var n := Normal(s);
    OrdersTotal();
    SortSorts(CompareAttestations, s.attestations);
    SortSorts(CompareBranches, s.ops);
    SortWithin(s.ops);
    var ops := Sort(CompareBranches, s.ops);
    NormalAllSorted(ops, MaxHeight(s.ops));
    assert multiset(ops) == multiset(s.ops) && |n.ops| == |ops|;
    assert forall a :: a in n.attestations <==> a in multiset(n.attestations);
    assert forall a :: a in s.attestations <==> a in multiset(s.attestations);
    forall i, j | 0 <= i < j < |n.attestations|
      ensures AttestationBefore(n.attestations[i], n.attestations[j])
    {
      AttestationPair(n.attestations, i, j);
    }
    forall i, j | 0 <= i < j < |n.ops|
      ensures OpBefore(n.ops[i].op, n.ops[j].op)
    {
      BranchPair(n.ops, i, j);
    }
  }

  lemma AttestationPair(atts: seq<Attestation>, i: nat, j: nat)
    requires SortedBy(CompareAttestations, atts) && i < j < |atts| && forall a :: a in atts ==> TagFits(a)
    ensures AttestationBefore(atts[i], atts[j])
  {
    hide SortedBy, CompareAttestations, AttestationBefore, TagFits;
    forall x, y, z |
      x in atts && y in atts && z in atts && CompareAttestations(x, y) <= 0 && CompareAttestations(y, z) <= 0
      ensures CompareAttestations(x, z) <= 0
    {
      AttestationOrderTransitive(x, y, z);
    }
    SortedPair(CompareAttestations, atts, i, j);
    AttestationsMean(atts[i], atts[j]);
  }

  lemma BranchPair(ops: seq<Branch>, i: nat, j: nat)
    requires SortedBy(CompareBranches, ops) && i < j < |ops|
    ensures OpBefore(ops[i].op, ops[j].op)
  {
    hide SortedBy, CompareBranches, OpBefore;
    forall x, y, z | x in ops && y in ops && z in ops && CompareBranches(x, y) <= 0 && CompareBranches(y, z) <= 0
      ensures CompareBranches(x, z) <= 0
    {
      BranchOrder(x, y, z);
    }
    SortedPair(CompareBranches, ops, i, j);
    BranchesMean(ops[i], ops[j]);
  }

  /** Items one after the other, 0xff before each but the last. */
  function Separated(items: seq<Bytes>): Bytes
    decreases |items|
  {
    if items == [] then [] else if |items| == 1 then items[0] else [0xff] + items[0] + Separated(items[1..])
  }

  /** An attestation: 0x00, its tag, and its payload with its length. */
  function AttestationItem(env: Env, a: Attestation): Bytes {
    var payload := match a
                   case Pending(uri) => VarUint(|env.encode(uri)|) + env.encode(uri)
                   case Bitcoin(h) => VarUint(h)
                   case Litecoin(h) => VarUint(h)
                   case Ethereum(h) => VarUint(h)
                   case Unknown(_, p) => p;
    [0x00] + KindTag(a) + VarUint(|payload|) + payload
  }

  /** An operation: its tag, its argument with its length if it has one, and what follows below it. */
  function OpItem(op: Op, below: Bytes): Bytes {
    [op.tag] + (match op.arg case Some(arg) => VarUint(|arg|) + arg case None => []) + below
  }

  ghost predicate AllWrite(env: Env, ops: seq<Branch>) {
    forall i :: 0 <= i < |ops| ==> WriteStamp(env, ops[i].stamp).Some?
  }

  ghost function Items(env: Env, atts: seq<Attestation>, ops: seq<Branch>): seq<Bytes>
    requires AllWrite(env, ops)
  {
    seq(|atts|, i requires 0 <= i < |atts| => AttestationItem(env, atts[i]))
    + seq(|ops|, i requires 0 <= i < |ops| => OpItem(ops[i].op, WriteStamp(env, ops[i].stamp).value))
  }

  lemma ItemForms(env: Env, a: Attestation, op: Op, below: Bytes)
    ensures [0] + WriteAttestation(env, a) == AttestationItem(env, a)
    ensures WriteOp(op) + below == OpItem(op, below)
  {
    hide VarUint;
    KindTags(a);
    var payload := Payload(env, a);
    assert [0] + (Tag(a) + (VarUint(|payload|) + payload)) == [0x00] + KindTag(a) + VarUint(|payload|) + payload;
    if op.arg.Some? {
      assert [op.tag] + (VarUint(|op.arg.value|) + op.arg.value) + below == OpItem(op, below);
    }
  }

  lemma AttestationFirst(env: Env, atts: seq<Attestation>, ops: seq<Branch>)
    requires AllWrite(env, ops) && atts != []
    ensures Items(env, atts, ops) == [AttestationItem(env, atts[0])] + Items(env, atts[1..], ops)
  {
    hide AttestationItem, OpItem, WriteStamp;
  }

  lemma BranchFirst(env: Env, ops: seq<Branch>)
    requires AllWrite(env, ops) && ops != []
    ensures AllWrite(env, ops[1..])
    ensures Items(env, [], ops) == [OpItem(ops[0].op, WriteStamp(env, ops[0].stamp).value)] + Items(env, [], ops[1..])
  {
    hide OpItem, WriteStamp;
  }

  lemma SeparatedCons(item: Bytes, rest: seq<Bytes>)
    ensures Separated([item] + rest) == if rest == [] then item else [0xff] + item + Separated(rest)
  {
    assert ([item] + rest)[1..] == rest;
  }

  lemma {:induction false} ItemsLayout(env: Env, atts: seq<Attestation>, ops: seq<Branch>, h: nat)
    requires Within(ops, h)
    ensures WriteItems(env, atts, ops, h).Some? <==> |atts| + |ops| > 0 && AllWrite(env, ops)
    ensures |atts| + |ops| > 0 && AllWrite(env, ops) ==>
      WriteItems(env, atts, ops, h) == Some(Separated(Items(env, atts, ops)))
    decreases |atts| + |ops|
  {
    hide WriteStamp, WriteAttestation, AttestationItem, OpItem, WriteOp, Items, Separated;
    if |atts| > 0 {
      var a := atts[0];
      ItemForms(env, a, Op(0, None), []);
      if |atts| + |ops| > 1 {
        ItemsLayout(env, atts[1..], ops, h);
      }
      if AllWrite(env, ops) {
        AttestationFirst(env, atts, ops);
        ItemsCount(env, atts[1..], ops);
        SeparatedCons(AttestationItem(env, a), Items(env, atts[1..], ops));
      }
    } else if |ops| > 0 {
      AllWriteTail(env, ops);
      if |ops| > 1 {
        ItemsLayout(env, [], ops[1..], h);
      }
      if AllWrite(env, ops) {
        var below := WriteStamp(env, ops[0].stamp).value;
        ItemForms(env, Bitcoin(0), ops[0].op, below);
        BranchFirst(env, ops);
        ItemsCount(env, [], ops[1..]);
        SeparatedCons(OpItem(ops[0].op, below), Items(env, [], ops[1..]));
      }
    }
  }

  lemma ItemsCount(env: Env, atts: seq<Attestation>, ops: seq<Branch>)
    requires AllWrite(env, ops)
    ensures |Items(env, atts, ops)| == |atts| + |ops|
  {
    hide AttestationItem, OpItem, WriteStamp;
  }

  lemma AllWriteTail(env: Env, ops: seq<Branch>)
    requires ops != []
    ensures AllWrite(env, ops) <==> WriteStamp(env, ops[0].stamp).Some? && AllWrite(env, ops[1..])
  {
    hide WriteStamp;
    assert forall i :: 0 < i < |ops| ==> ops[i] == ops[1..][i - 1];
  }

  /** What is written for a node: the items of its normal form, attestations before operations, each in order,
      separated by 0xff; and below each operation what is written for its node. Refused only where a node has
      nothing to say. */
  lemma WrittenForm(env: Env, s: Stamp)
    ensures var n := Normal(s);
      && (WriteStamp(env, s).Some? <==> |n.attestations| + |n.ops| > 0 && AllWrite(env, n.ops))
      && (WriteStamp(env, s).Some? ==> WriteStamp(env, s).value == Separated(Items(env, n.attestations, n.ops)))
  {
    hide Normal, WriteItems, Sort, Items, Separated;
    var n := Normal(s);
    NormalWrites(env, s);
    NormalSorts(s);
    SortWithin(n.ops);
    ItemsLayout(env, n.attestations, n.ops, MaxHeight(n.ops));
  }

  // ---------------------------------------------------------------- files

  /** Magic, version 1, SHA-256. */
  const FILE_HEAD: Bytes := [
    0x00, 0x4f, 0x70, 0x65, 0x6e, 0x54, 0x69, 0x6d, 0x65, 0x73, 0x74, 0x61, 0x6d, 0x70, 0x73, 0x00,
    0x00, 0x50, 0x72, 0x6f, 0x6f, 0x66, 0x00, 0xbf, 0x89, 0xe2, 0xe8, 0x84, 0xe8, 0x92, 0x94, 0x01, 0x08]

  /** A file: this head, the digest, the tree. */
  lemma FileForm(env: Env, digest: Bytes, s: Stamp)
    ensures SerialiseProof(env, digest, s).Some? <==> WriteStamp(env, s).Some?
    ensures SerialiseProof(env, digest, s).Some? ==>
      SerialiseProof(env, digest, s).value == FILE_HEAD + digest + WriteStamp(env, s).value
  {
    hide WriteStamp;
    assert VarUint(1) == [1];
    assert HEADER_MAGIC + [1] + [0x08] == FILE_HEAD;
  }

  /** A file whose head does not have that magic or that version is refused, and so is one that ends early; after
      a head the digest has 32 bytes for SHA-256 and Keccak-256 and 20 for any other hash. */
  lemma HeadsRead(env: Env, version: nat, hash: byte, rest: Bytes)
    requires version <= MAX_SAFE
    ensures var file := HEADER_MAGIC + VarUint(version) + [hash] + rest;
      var n := if hash == 0x08 || hash == 0x67 then 32 else 20;
      && (version != 1 ==> ParseProof(env, file) == Err(BadVersion))
      && (version == 1 && |rest| < n ==> ParseProof(env, file) == Err(EndsMidValue))
      && (version == 1 && n <= |rest| ==>
            var tree := ReadStamp(env, rest[n..], rest[..n]);
            ParseProof(env, file) == if tree.Got? then Ok(Proof(rest[..n], tree.value)) else Err(tree.error))
  {
    hide VarUint, ReadVarUint, ReadStamp;
    var file := HEADER_MAGIC + VarUint(version) + [hash] + rest;
    assert file == HEADER_MAGIC + (VarUint(version) + ([hash] + rest));
    TakeReads(HEADER_MAGIC, VarUint(version) + ([hash] + rest));
    VarUintReads(version, [hash] + rest);
    assert ([hash] + rest)[1..] == rest;
  }

  /** A file that ends with its version. */
  lemma HeadCutOff(env: Env, version: nat)
    requires version <= MAX_SAFE
    ensures ParseProof(env, HEADER_MAGIC + VarUint(version)) ==
      Err(if version == 1 then EndsMidStructure else BadVersion)
    ensures ParseProof(env, HEADER_MAGIC) == Err(EndsMidStructure)
  {
    hide VarUint, ReadStamp;
    TakeReads(HEADER_MAGIC, VarUint(version));
    TakeReads(HEADER_MAGIC, []);
    assert HEADER_MAGIC + [] == HEADER_MAGIC;
    VarUintReads(version, []);
    assert VarUint(version) + [] == VarUint(version);
  }

  lemma OtherMagicRefused(env: Env, file: Bytes)
    ensures |file| < 31 ==> ParseProof(env, file) == Err(EndsMidValue)
    ensures |file| >= 31 && file[..31] != FILE_HEAD[..31] ==> ParseProof(env, file) == Err(BadMagic)
  {
    hide ReadStamp, ReadVarUint;
    assert FILE_HEAD[..31] == HEADER_MAGIC;
  }
}
