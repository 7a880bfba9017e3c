/**
  One history from receipts alone (src/phala/consistency.ts:69-166). The checker rebuilds the
  leaves from the receipts, checks every head against them and derives the consistency proofs
  itself. It answers ok exactly when a single list of leaves explains all the receipts.
 */
module LogConsistency {
  import opened Basics
  import opened Merkle
  import opened Consistency
  import Multihash

  /** A tree head and its signature, the latter seen only through `SigOk` below. */
  datatype Sth = Sth(logId: string, size: nat, root: string, keyId: string)

  datatype Receipt = Receipt(sth: Option<Sth>, index: Option<int>, binding: string)

  /** A receipt that carries a tree head and an inclusion index. */
  datatype Entry = Entry(sth: Sth, index: int, binding: string)

  /** Key lookup and signature verification of an entry's tree head. */
  type SigOk = Entry -> bool

  function WithHead(receipts: seq<Receipt>): seq<Entry> {
    if receipts == [] then []
    else
      var r := receipts[0];
      (if r.sth.Some? && r.index.Some? then [Entry(r.sth.value, r.index.value, r.binding)] else [])
      + WithHead(receipts[1..])
  }

  /** The leaf a receipt claims; None where decoding its binding hash throws. */
  function Leaf(sha: Sha, e: Entry): Option<Digest> {
    match Multihash.ToDigest(e.binding)
    case None => None
    case Some(d) => Some(LeafHash(sha, d))
  }

  // ---------------------------------------------------------------- what one history means

  ghost predicate OneLog(es: seq<Entry>) {
    forall i, j :: 0 <= i < |es| && 0 <= j < |es| ==> es[i].sth.logId == es[j].sth.logId
  }

  ghost predicate BindingsDecode(sha: Sha, es: seq<Entry>) {
    forall i :: 0 <= i < |es| ==> Leaf(sha, es[i]).Some?
  }

  ghost predicate NoLeafConflict(sha: Sha, es: seq<Entry>) {
    forall i, j :: 0 <= i < |es| && 0 <= j < |es| && es[i].index == es[j].index ==> Leaf(sha, es[i]) == Leaf(sha, es[j])
  }

  ghost predicate NoEquivocation(es: seq<Entry>) {
    forall i, j :: 0 <= i < |es| && 0 <= j < |es| && es[i].sth.size == es[j].sth.size ==>
      es[i].sth.root == es[j].sth.root
  }

  ghost predicate TwoSizes(es: seq<Entry>) {
    exists i, j :: 0 <= i < |es| && 0 <= j < |es| && es[i].sth.size != es[j].sth.size
  }

  ghost predicate FirstOfSize(es: seq<Entry>, i: nat) {
    i < |es| && forall j :: 0 <= j < i ==> es[j].sth.size != es[i].sth.size
  }

  ghost predicate Signed(es: seq<Entry>, sig: SigOk) {
    forall i: nat :: FirstOfSize(es, i) ==> sig(es[i])
  }

  /** `leaves` are the leaves of the largest tree, all of them claimed by some receipt. */
  ghost predicate Covers(sha: Sha, es: seq<Entry>, leaves: seq<Digest>) {
    && (forall i :: 0 <= i < |es| ==> es[i].sth.size <= |leaves|)
    && (exists i :: 0 <= i < |es| && es[i].sth.size == |leaves|)
    && (forall k :: 0 <= k < |leaves| ==> HasIndex(es, k))
    && (forall i :: 0 <= i < |es| && 0 <= es[i].index < |leaves| ==> Leaf(sha, es[i]) == Some(leaves[es[i].index]))
  }

  ghost predicate HasIndex(es: seq<Entry>, k: int) {
    exists i :: 0 <= i < |es| && es[i].index == k
  }

  /** Every receipt's head is the root of the first `size` leaves. */
  ghost predicate RootsMatch(sha: Sha, es: seq<Entry>, leaves: seq<Digest>) {
    forall i :: 0 <= i < |es| ==> RootMatches(sha, es[i], leaves)
  }

  predicate RootMatches(sha: Sha, e: Entry, leaves: seq<Digest>) {
    e.sth.size <= |leaves| && Multihash.ToDigest(e.sth.root) == Some(Root(sha, leaves[..e.sth.size]))
  }

  ghost predicate OneHistory(sha: Sha, es: seq<Entry>, sig: SigOk, leaves: seq<Digest>) {
    && |es| >= 2 && OneLog(es) && BindingsDecode(sha, es)
    && NoLeafConflict(sha, es) && Covers(sha, es, leaves)
    && NoEquivocation(es) && TwoSizes(es)
    && Signed(es, sig) && RootsMatch(sha, es, leaves)
  }

  // ---------------------------------------------------------------- the same, receipt by receipt

  /** What the leaves explain about one receipt: its record, if the largest tree covers it, and its head. */
  ghost predicate Explains(sha: Sha, leaves: seq<Digest>, e: Entry) {
    && Multihash.ToDigest(e.binding).Some?
    && (0 <= e.index < |leaves| ==> leaves[e.index] == LeafHash(sha, Multihash.ToDigest(e.binding).value))
    && e.sth.size <= |leaves| && Multihash.ToDigest(e.sth.root) == Some(Root(sha, leaves[..e.sth.size]))
  }

  /** Two receipts do not speak of two logs, of two trees of one size or of two leaves at one index. */
  ghost predicate Compatible(sha: Sha, a: Entry, b: Entry) {
    && a.sth.logId == b.sth.logId
    && (a.sth.size == b.sth.size ==> a.sth.root == b.sth.root)
    && var d, d' := Multihash.ToDigest(a.binding), Multihash.ToDigest(b.binding);
       a.index == b.index && d.Some? && d'.Some? ==> LeafHash(sha, d.value) == LeafHash(sha, d'.value)
  }

  ghost predicate AllExplained(sha: Sha, es: seq<Entry>, leaves: seq<Digest>) {
    forall i :: 0 <= i < |es| ==> Explains(sha, leaves, es[i])
  }

  ghost predicate AllCompatible(sha: Sha, es: seq<Entry>) {
    forall i, j :: 0 <= i < |es| && 0 <= j < |es| ==> Compatible(sha, es[i], es[j])
  }

  /** The leaves are those of the largest of at least two sizes, each claimed by a receipt. */
  ghost predicate Measures(es: seq<Entry>, leaves: seq<Digest>) {
    && (exists i :: 0 <= i < |es| && es[i].sth.size < |leaves|)
    && (exists i :: 0 <= i < |es| && es[i].sth.size == |leaves|)
    && var claimed := set i | 0 <= i < |es| :: es[i].index;
       forall k :: 0 <= k < |leaves| ==> k in claimed
  }

  /** For every receipt, it or an earlier one of its size carries a valid signature: the first of that size. */
  ghost predicate Vouched(es: seq<Entry>, sig: SigOk) {
    forall i :: 0 <= i < |es| ==> sig(es[i]) || exists j :: 0 <= j < i && es[j].sth.size == es[i].sth.size
  }

  /** One history means: the leaves explain every receipt, no two receipts contradict each other, and the first
      head of every size is signed. */
  lemma HistoryMeans(sha: Sha, es: seq<Entry>, sig: SigOk, leaves: seq<Digest>)
    ensures OneHistory(sha, es, sig, leaves)
       <==> Measures(es, leaves) && AllExplained(sha, es, leaves) && AllCompatible(sha, es) && Vouched(es, sig)
  {
    hide *;
    if OneHistory(sha, es, sig, leaves) {
      HistorySound(sha, es, sig, leaves);
    }
    if Measures(es, leaves) && AllExplained(sha, es, leaves) && AllCompatible(sha, es) && Vouched(es, sig) {
      HistoryComplete(sha, es, sig, leaves);
    }
  }

  lemma HistorySound(sha: Sha, es: seq<Entry>, sig: SigOk, leaves: seq<Digest>)
    requires OneHistory(sha, es, sig, leaves)
    ensures Measures(es, leaves) && AllExplained(sha, es, leaves) && AllCompatible(sha, es) && Vouched(es, sig)
  {
    hide Root, LeafHash, Multihash.ToDigest, Signed, Vouched, FirstOfSize, Measures, Covers, Explains, Compatible;
    hide TwoSizes;
    MeasuresExactly(sha, es, leaves);
    VouchedExactly(es, sig);
    forall i | 0 <= i < |es|
      ensures Explains(sha, leaves, es[i])
    {
      assert RootMatches(sha, es[i], leaves) && Leaf(sha, es[i]).Some?;
      ExplainsExactly(sha, es, leaves, i);
    }
    forall i, j | 0 <= i < |es| && 0 <= j < |es|
      ensures Compatible(sha, es[i], es[j])
    {
      assert Leaf(sha, es[i]).Some? && Leaf(sha, es[j]).Some?;
      CompatibleExactly(sha, es[i], es[j]);
    }
  }

  lemma HistoryComplete(sha: Sha, es: seq<Entry>, sig: SigOk, leaves: seq<Digest>)
    requires Measures(es, leaves) && AllExplained(sha, es, leaves) && AllCompatible(sha, es) && Vouched(es, sig)
    ensures OneHistory(sha, es, sig, leaves)
  {
    hide Root, LeafHash, Multihash.ToDigest, Signed, Vouched, FirstOfSize, Measures, Covers, Compatible, TwoSizes;
    hide Leaf;
    VouchedExactly(es, sig);
    forall i | 0 <= i < |es|
      ensures RootMatches(sha, es[i], leaves) && Leaf(sha, es[i]).Some?
    {
      assert Explains(sha, leaves, es[i]);
      LeafSome(sha, es[i]);
    }
    MeasuresExactly(sha, es, leaves);
    forall i, j | 0 <= i < |es| && 0 <= j < |es|
      ensures es[i].sth.logId == es[j].sth.logId
      ensures es[i].sth.size == es[j].sth.size ==> es[i].sth.root == es[j].sth.root
      ensures es[i].index == es[j].index ==> Leaf(sha, es[i]) == Leaf(sha, es[j])
    {
      assert Compatible(sha, es[i], es[j]) && Leaf(sha, es[i]).Some? && Leaf(sha, es[j]).Some?;
      CompatibleExactly(sha, es[i], es[j]);
    }
  }

  lemma LeafSome(sha: Sha, e: Entry)
    ensures Leaf(sha, e).Some? <==> Multihash.ToDigest(e.binding).Some?
  {
    hide Multihash.ToDigest;
  }

  lemma ExplainsExactly(sha: Sha, es: seq<Entry>, leaves: seq<Digest>, i: nat)
    requires i < |es| && Covers(sha, es, leaves) && RootMatches(sha, es[i], leaves) && Leaf(sha, es[i]).Some?
    ensures Explains(sha, leaves, es[i])
  {
    hide Root, LeafHash, Multihash.ToDigest;
  }

  lemma CompatibleExactly(sha: Sha, a: Entry, b: Entry)
    requires Leaf(sha, a).Some? && Leaf(sha, b).Some?
    ensures Compatible(sha, a, b)
       <==> && a.sth.logId == b.sth.logId && (a.sth.size == b.sth.size ==> a.sth.root == b.sth.root)
            && (a.index == b.index ==> Leaf(sha, a) == Leaf(sha, b))
  {
    hide LeafHash, Multihash.ToDigest;
  }

  lemma VouchedExactly(es: seq<Entry>, sig: SigOk)
    ensures Signed(es, sig) <==> Vouched(es, sig)
  {
    if Signed(es, sig) {
      forall i: nat | i < |es| && forall j :: 0 <= j < i ==> es[j].sth.size != es[i].sth.size
        ensures sig(es[i])
      {
        assert FirstOfSize(es, i);
      }
    }
  }

  lemma MeasuresExactly(sha: Sha, es: seq<Entry>, leaves: seq<Digest>)
    ensures Covers(sha, es, leaves) && TwoSizes(es) ==> Measures(es, leaves)
    ensures Measures(es, leaves) && AllExplained(sha, es, leaves) ==>
      Covers(sha, es, leaves) && TwoSizes(es) && |es| >= 2
  {
    hide Root, LeafHash, Multihash.ToDigest;
    var claimed := set i | 0 <= i < |es| :: es[i].index;
    assert forall k :: k in claimed <==> HasIndex(es, k);
    if Measures(es, leaves) && AllExplained(sha, es, leaves) {
      forall i | 0 <= i < |es|
        ensures es[i].sth.size <= |leaves|
        ensures 0 <= es[i].index < |leaves| ==> Leaf(sha, es[i]) == Some(leaves[es[i].index])
      {
        assert Explains(sha, leaves, es[i]);
      }
    }
    if Covers(sha, es, leaves) && TwoSizes(es) {
      var a, b :| 0 <= a < |es| && 0 <= b < |es| && es[a].sth.size != es[b].sth.size;
      assert es[a].sth.size < |leaves| || es[b].sth.size < |leaves|;
    }
  }

  predicate Carries(r: Receipt) {
    r.sth.Some? && r.index.Some?
  }

  predicate TakenFrom(r: Receipt, e: Entry) {
    r == Receipt(Some(e.sth), Some(e.index), e.binding)
  }

  /** The entries are those receipts that carry a head and an index, in order: `at` says where each comes from. */
  ghost predicate PickedAt(receipts: seq<Receipt>, es: seq<Entry>, at: seq<nat>) {
    && |at| == |es|
    && (forall k :: 0 <= k < |at| ==> at[k] < |receipts| && TakenFrom(receipts[at[k]], es[k]))
    && (forall j, k :: 0 <= j < k < |at| ==> at[j] < at[k])
    && (forall i: nat :: i < |receipts| && Carries(receipts[i]) ==> i in at)
  }

  lemma {:induction false} WithHeadPicks(receipts: seq<Receipt>) returns (at: seq<nat>)
    ensures PickedAt(receipts, WithHead(receipts), at)
    decreases |receipts|
  {
    if receipts == [] {
      at := [];
    } else {
      var rest := receipts[1..];
      var later := WithHeadPicks(rest);
      hide PickedAt, WithHead;
      at := PickFirst(receipts, WithHead(rest), later);
      WithHeadCons(receipts);
    }
  }

  lemma WithHeadCons(receipts: seq<Receipt>)
    requires receipts != []
    ensures var r := receipts[0];
      WithHead(receipts) == (if Carries(r) then [Entry(r.sth.value, r.index.value, r.binding)] else [])
                            + WithHead(receipts[1..])
  {
  }

  lemma PickFirst(receipts: seq<Receipt>, es: seq<Entry>, later: seq<nat>) returns (at: seq<nat>)
    requires receipts != [] && PickedAt(receipts[1..], es, later)
    ensures var r := receipts[0];
      PickedAt(receipts, (if Carries(r) then [Entry(r.sth.value, r.index.value, r.binding)] else []) + es, at)
  {
    hide Carries, TakenFrom, PickedAt;
    var r := receipts[0];
    var shifted := Shifted(receipts, es, later);
    if Carries(r) {
      FirstTaken(r);
      at := [0] + shifted;
      PickAlso(receipts, Entry(r.sth.value, r.index.value, r.binding), es, shifted);
    } else {
      at := shifted;
      assert [] + es == es;
      PickNoMore(receipts, es, shifted);
    }
  }

  lemma PickNoMore(receipts: seq<Receipt>, es: seq<Entry>, at: seq<nat>)
    requires receipts != [] && !Carries(receipts[0]) && |at| == |es|
    requires forall k :: 0 <= k < |es| ==> 0 < at[k] < |receipts| && TakenFrom(receipts[at[k]], es[k])
    requires forall j, k :: 0 <= j < k < |es| ==> at[j] < at[k]
    requires forall i: nat :: 0 < i < |receipts| && Carries(receipts[i]) ==> i in at
    ensures PickedAt(receipts, es, at)
  {
    hide Carries, TakenFrom;
  }

  lemma PickAlso(receipts: seq<Receipt>, e: Entry, es: seq<Entry>, later: seq<nat>)
    requires receipts != [] && TakenFrom(receipts[0], e) && |later| == |es|
    requires forall k :: 0 <= k < |es| ==> 0 < later[k] < |receipts| && TakenFrom(receipts[later[k]], es[k])
    requires forall j, k :: 0 <= j < k < |es| ==> later[j] < later[k]
    requires forall i: nat :: 0 < i < |receipts| && Carries(receipts[i]) ==> i in later
    ensures PickedAt(receipts, [e] + es, [0] + later)
  {
    hide Carries, TakenFrom;
    var at, all := [0] + later, [e] + es;
    forall k | 0 <= k < |at|
      ensures at[k] < |receipts| && TakenFrom(receipts[at[k]], all[k])
    {
      assert k > 0 ==> at[k] == later[k - 1] && all[k] == es[k - 1];
    }
    forall i: nat | i < |receipts| && Carries(receipts[i])
      ensures i in at
    {
      assert at[0] == 0;
    }
  }

  lemma Shifted(receipts: seq<Receipt>, es: seq<Entry>, later: seq<nat>) returns (shifted: seq<nat>)
    requires receipts != [] && PickedAt(receipts[1..], es, later)
    ensures |shifted| == |es|
    ensures forall k :: 0 <= k < |es| ==> 0 < shifted[k] < |receipts| && TakenFrom(receipts[shifted[k]], es[k])
    ensures forall j, k :: 0 <= j < k < |es| ==> shifted[j] < shifted[k]
    ensures forall i: nat :: 0 < i < |receipts| && Carries(receipts[i]) ==> i in shifted
  {
    hide Carries, TakenFrom;
    var rest := receipts[1..];
    shifted := seq(|later|, (k: nat) requires k < |later| => later[k] + 1);
    forall k | 0 <= k < |es|
      ensures 0 < shifted[k] < |receipts| && TakenFrom(receipts[shifted[k]], es[k])
    {
      assert receipts[shifted[k]] == rest[later[k]];
    }
    forall i: nat | 0 < i < |receipts| && Carries(receipts[i])
      ensures i in shifted
    {
      assert receipts[i] == rest[i - 1] && i - 1 in later;
      var k :| 0 <= k < |later| && later[k] == i - 1;
      assert shifted[k] == i;
    }
  }

  lemma FirstTaken(r: Receipt)
    requires Carries(r)
    ensures r.sth.Some? && r.index.Some? && TakenFrom(r, Entry(r.sth.value, r.index.value, r.binding))
  {
  }

  // ---------------------------------------------------------------- the checker

  datatype Reason =
    | TooFewReceipts
    | MoreThanOneLog
    | TwoRecordsClaim(leaf: int)
    | LeafMissing(leaf: int)
    | Equivocation(size: nat)
    | BadSignature(size: nat)
    | RootMismatch(size: nat)
    | ProofFails(m: nat, n: nat)

  datatype HeadCheck = HeadCheck(size: nat, root: string, signatureOk: bool, rootMatches: bool)

  datatype PairCheck = PairCheck(m: nat, n: nat, length: nat, ok: bool)

  datatype Report =
    | Threw
    | Report(ok: bool, logId: Option<string>, heads: seq<HeadCheck>, pairs: seq<PairCheck>, reasons: seq<Reason>)

  /** `table` holds, for each index claimed by the first n entries, the leaf of one of them. */
  ghost predicate LeafTable(sha: Sha, es: seq<Entry>, n: nat, table: map<int, Digest>, from: map<int, nat>) {
    && n <= |es| && table.Keys == from.Keys
    && (forall i :: 0 <= i < n ==> es[i].index in table)
    && (forall k :: k in table ==> from[k] < n && es[from[k]].index == k && Leaf(sha, es[from[k]]) == Some(table[k]))
  }

  ghost predicate AllAgree(sha: Sha, es: seq<Entry>, n: nat, table: map<int, Digest>) {
    forall i :: 0 <= i < n <= |es| ==> es[i].index in table && Leaf(sha, es[i]) == Some(table[es[i].index])
  }

  /** Fill `leafByIndex`; a later claim of the same index replaces the earlier one. */
  method CollectLeaves(sha: Sha, es: seq<Entry>)
    returns (threw: bool, leafByIndex: map<int, Digest>, reasons: seq<Reason>, ghost from: map<int, nat>)
    ensures threw <==> !BindingsDecode(sha, es)
    ensures !threw ==>
      && LeafTable(sha, es, |es|, leafByIndex, from)
      && (reasons == [] <==> NoLeafConflict(sha, es))
      && (reasons == [] ==> AllAgree(sha, es, |es|, leafByIndex))
  {
    hide Leaf;
    threw, leafByIndex, reasons, from := false, map[], [], map[];
    for i := 0 to |es|
      invariant forall j :: 0 <= j < i ==> Leaf(sha, es[j]).Some?
      invariant LeafTable(sha, es, i, leafByIndex, from)
      invariant reasons == [] ==> AllAgree(sha, es, i, leafByIndex)
      invariant reasons != [] ==> !NoLeafConflict(sha, es)
    {
      var index := es[i].index;
      var leaf := Leaf(sha, es[i]);
      if leaf.None? {
        threw := true;
        return;
      }
      if index in leafByIndex && leafByIndex[index] != leaf.value {
        reasons := reasons + [TwoRecordsClaim(index)];
        assert es[i].index == es[from[index]].index;
      }
      leafByIndex := leafByIndex[index := leaf.value];
      from := from[index := i];
    }
  }

  method MaxSize(es: seq<Entry>) returns (max: nat)
    requires |es| > 0
    ensures forall i :: 0 <= i < |es| ==> es[i].sth.size <= max
    ensures exists i :: 0 <= i < |es| && es[i].sth.size == max
  {
    max := es[0].sth.size;
    for i := 1 to |es|
      invariant forall j :: 0 <= j < i ==> es[j].sth.size <= max
      invariant exists j :: 0 <= j < i && es[j].sth.size == max
    {
      if es[i].sth.size > max {
        max := es[i].sth.size;
      }
    }
  }

  /** Leaves 0..max-1 in order, or the first missing index. */
  method OrderLeaves(leafByIndex: map<int, Digest>, max: nat) returns (leaves: seq<Digest>, missing: Option<nat>)
    ensures missing.Some? ==>
      missing.value < max && missing.value !in leafByIndex && forall k :: 0 <= k < missing.value ==> k in leafByIndex
    ensures missing.None? ==>
      |leaves| == max && forall k :: 0 <= k < max ==> k in leafByIndex && leaves[k] == leafByIndex[k]
  {
    leaves, missing := [], None;
    for i := 0 to max
      invariant |leaves| == i && forall k :: 0 <= k < i ==> k in leafByIndex && leaves[k] == leafByIndex[k]
    {
      if i !in leafByIndex {
        missing := Some(i);
        return;
      }
      leaves := leaves + [leafByIndex[i]];
    }
  }

  /** `table` holds the first of the first n entries for each of their sizes. */
  ghost predicate HeadTable(es: seq<Entry>, n: nat, table: map<nat, Entry>, from: map<nat, nat>) {
    && n <= |es| && table.Keys == from.Keys
    && (forall i: nat :: i < n ==> es[i].sth.size in table && from[es[i].sth.size] <= i)
    && (forall z :: z in table ==> from[z] < n && es[from[z]].sth.size == z && es[from[z]] == table[z])
  }

  ghost predicate Distinct(sizes: seq<nat>) {
    forall i, j :: 0 <= i < j < |sizes| ==> sizes[i] != sizes[j]
  }

  ghost predicate Ascending(sizes: seq<nat>) {
    forall i, j :: 0 <= i < j < |sizes| ==> sizes[i] < sizes[j]
  }

  ghost predicate RootsAgree(es: seq<Entry>, n: nat, table: map<nat, Entry>) {
    forall i: nat :: i < n <= |es| ==> es[i].sth.size in table && table[es[i].sth.size].sth.root == es[i].sth.root
  }

  /** One head per size, the first one seen; `sizes` are the keys in the order they were added. */
  method CollectHeads(es: seq<Entry>)
    returns (headBySize: map<nat, Entry>, sizes: seq<nat>, reasons: seq<Reason>, ghost from: map<nat, nat>)
    ensures HeadTable(es, |es|, headBySize, from)
    ensures reasons == [] <==> NoEquivocation(es)
    ensures (forall z: nat :: z in sizes <==> z in headBySize) && Distinct(sizes)
  {
    headBySize, sizes, reasons, from := map[], [], [], map[];
    for n := 0 to |es|
      invariant HeadTable(es, n, headBySize, from)
      invariant reasons == [] ==> RootsAgree(es, n, headBySize)
      invariant reasons != [] ==> !NoEquivocation(es)
      invariant (forall z: nat :: z in sizes <==> z in headBySize) && Distinct(sizes)
    {
      var size := es[n].sth.size;
      if size in headBySize {
        if headBySize[size].sth.root != es[n].sth.root {
          reasons := reasons + [Equivocation(size)];
          assert es[from[size]].sth.size == es[n].sth.size;
        }
      } else {
        headBySize := headBySize[size := es[n]];
        from := from[size := n];
        sizes := sizes + [size];
      }
    }
  }

  /** Insert into an ascending list. */
  function Insert(z: nat, sorted: seq<nat>): (r: seq<nat>)
    requires Ascending(sorted) && z !in sorted
    ensures Ascending(r) && forall x: nat :: x in r <==> x == z || x in sorted
  {
    if sorted == [] || z < sorted[0] then [z] + sorted
    else
      var rest := Insert(z, sorted[1..]);
      assert sorted == [sorted[0]] + sorted[1..];
      assert forall i :: 0 <= i < |rest| ==> rest[i] in rest;
      [sorted[0]] + rest
  }

  method SortSizes(sizes: seq<nat>) returns (sorted: seq<nat>)
    requires Distinct(sizes)
    ensures Ascending(sorted) && forall z: nat :: z in sorted <==> z in sizes
  {
    sorted := [];
    for n := 0 to |sizes|
      invariant Ascending(sorted) && forall z: nat :: z in sorted <==> z in sizes[..n]
    {
      sorted := Insert(sizes[n], sorted);
      assert sizes[..n + 1] == sizes[..n] + [sizes[n]];
    }
    assert sizes[..|sizes|] == sizes;
  }

  /** The per-head checks, in ascending order of size. */
  method CheckHeads(sha: Sha, headBySize: map<nat, Entry>, sizes: seq<nat>, sig: SigOk, leaves: seq<Digest>)
    returns (heads: seq<HeadCheck>, reasons: seq<Reason>)
    requires forall z: nat :: z in sizes ==> z in headBySize && headBySize[z].sth.size == z <= |leaves|
    ensures |heads| == |sizes|
    ensures reasons == [] <==>
      forall z: nat :: z in sizes ==> sig(headBySize[z]) && RootMatches(sha, headBySize[z], leaves)
    ensures reasons == [] ==> forall h :: h in heads ==> h.signatureOk && h.rootMatches
  {
    heads, reasons := [], [];
    for n := 0 to |sizes|
      invariant |heads| == n
      invariant reasons == [] <==>
        forall i: nat :: i < n ==> sig(headBySize[sizes[i]]) && RootMatches(sha, headBySize[sizes[i]], leaves)
      invariant reasons == [] ==> forall h :: h in heads ==> h.signatureOk && h.rootMatches
    {
      var e := headBySize[sizes[n]];
      var signatureOk := sig(e);
      var recomputed := Root(sha, leaves[..sizes[n]]);
      var claimed := Multihash.ToDigest(e.sth.root);
      var rootMatches := claimed.Some? && recomputed == claimed.value;
      assert sizes[n] in sizes;
      if !signatureOk {
        reasons := reasons + [BadSignature(sizes[n])];
      }
      if !rootMatches {
        reasons := reasons + [RootMismatch(sizes[n])];
      }
      heads := heads + [HeadCheck(sizes[n], e.sth.root, signatureOk, rootMatches)];
    }
  }

  /** The pairwise proofs, derived here. Once every head matches the leaves none of them can fail. */
  method CheckPairs(sha: Sha, headBySize: map<nat, Entry>, sizes: seq<nat>, leaves: seq<Digest>)
    returns (pairs: seq<PairCheck>, reasons: seq<Reason>)
    requires Ascending(sizes)
    requires forall z: nat :: z in sizes ==> z in headBySize && headBySize[z].sth.size == z <= |leaves|
    ensures |sizes| > 0 ==> |pairs| == |sizes| - 1
    ensures reasons == [] <==> forall p :: p in pairs ==> p.ok
    ensures (forall z: nat :: z in sizes ==> RootMatches(sha, headBySize[z], leaves)) ==> reasons == []
  {
    hide Root, Accepted;
    pairs, reasons := [], [];
    var i := 0;
    while i + 1 < |sizes|
      invariant 0 <= i && |pairs| == i && (|sizes| > 0 ==> i <= |sizes| - 1)
      invariant reasons == [] <==> forall p :: p in pairs ==> p.ok
      invariant (forall z: nat :: z in sizes ==> RootMatches(sha, headBySize[z], leaves)) ==> reasons == []
      decreases |sizes| - i
    {
      var m, n := sizes[i], sizes[i + 1];
      assert m in sizes && n in sizes;
      var proof := ConsistencyProof(sha, leaves[..n], m);
      ConsistencyComplete(sha, leaves[..n], m);
      var r1, r2 := Multihash.ToDigest(headBySize[m].sth.root), Multihash.ToDigest(headBySize[n].sth.root);
      var ok, length := false, 0;
      if proof.Ok? {
        length := |proof.value|;
        if r1.Some? && r2.Some? {
          ok := VerifyConsistency(sha, m, n, r1.value, r2.value, proof.value);
        }
      }
      assert leaves[..n][..m] == leaves[..m];
      assert RootMatches(sha, headBySize[m], leaves) && RootMatches(sha, headBySize[n], leaves) ==> ok;
      if !ok {
        reasons := reasons + [ProofFails(m, n)];
      }
      pairs := pairs + [PairCheck(m, n, length, ok)];
      i := i + 1;
    }
  }

  /** The whole check. It throws exactly when two or more receipts of one log carry heads and a
      binding hash does not decode, and otherwise answers ok exactly when one history exists. */
  method VerifyLogConsistency(sha: Sha, receipts: seq<Receipt>, sig: SigOk) returns (r: Report)
    ensures var es := WithHead(receipts);
      r.Threw? <==> |es| >= 2 && OneLog(es) && !BindingsDecode(sha, es)
    ensures r.Report? && r.ok ==> exists leaves :: OneHistory(sha, WithHead(receipts), sig, leaves)
    ensures forall leaves :: OneHistory(sha, WithHead(receipts), sig, leaves) ==> r.Report? && r.ok
    ensures r.Report? && r.ok ==> r.reasons == [] && |r.heads| == |r.pairs| + 1
  {
    hide LeafTable, AllAgree, NoLeafConflict, Covers, BindingsDecode, NoEquivocation, Signed, RootsMatch, TwoSizes;
    var es := WithHead(receipts);
    if |es| < 2 {
      return Report(false, None, [], [], [TooFewReceipts]);
    }
    var logId := es[0].sth.logId;
    if exists i :: 0 <= i < |es| && es[i].sth.logId != logId {
      return Report(false, Some(logId), [], [], [MoreThanOneLog]);
    }
    var threw, leafByIndex, conflicts, fromLeaf := CollectLeaves(sha, es);
    if threw {
      return Threw;
    }
    var maxSize := MaxSize(es);
    var leaves, missing := OrderLeaves(leafByIndex, maxSize);
    if missing.Some? {
      MissingLeaf(sha, es, leafByIndex, fromLeaf, maxSize, missing.value);
      return Report(false, Some(logId), [], [], conflicts + [LeafMissing(missing.value)]);
    }
    var headBySize, order, forks, fromHead := CollectHeads(es);
    var sizes := SortSizes(order);
    var heads, badHeads := CheckHeads(sha, headBySize, sizes, sig, leaves);
    var pairs, badPairs := CheckPairs(sha, headBySize, sizes, leaves);
    var reasons := conflicts + forks + badHeads + badPairs;
    var ok := reasons == [] && |heads| >= 2 && (forall p :: p in pairs ==> p.ok)
              && (forall h :: h in heads ==> h.signatureOk && h.rootMatches);
    LeavesUnique(sha, es, leafByIndex, fromLeaf, leaves, conflicts);
    SizesCount(es, headBySize, fromHead, sizes);
    HeadsDecide(sha, es, sig, headBySize, fromHead, sizes, leaves, forks, badHeads);
    if ok {
      assert OneHistory(sha, es, sig, leaves);
    }
    return Report(ok, Some(logId), heads, pairs, reasons);
  }

  lemma MissingLeaf(sha: Sha, es: seq<Entry>, table: map<int, Digest>, from: map<int, nat>, max: nat, k: nat)
    requires LeafTable(sha, es, |es|, table, from) && k < max && k !in table
    requires exists i :: 0 <= i < |es| && es[i].sth.size == max
    ensures forall leaves :: !Covers(sha, es, leaves)
  {
    assert !HasIndex(es, k);
  }

  /** The receipts determine the leaves. */
  lemma LeavesUnique(sha: Sha, es: seq<Entry>, table: map<int, Digest>, from: map<int, nat>, leaves: seq<Digest>,
      conflicts: seq<Reason>)
    requires LeafTable(sha, es, |es|, table, from) && (conflicts == [] ==> AllAgree(sha, es, |es|, table))
    requires forall k :: 0 <= k < |leaves| ==> k in table && leaves[k] == table[k]
    requires forall i :: 0 <= i < |es| ==> es[i].sth.size <= |leaves|
    requires exists i :: 0 <= i < |es| && es[i].sth.size == |leaves|
    ensures conflicts == [] ==> Covers(sha, es, leaves)
    ensures forall ls :: conflicts == [] && Covers(sha, es, ls) ==> ls == leaves
  {
    hide Leaf;
    if conflicts == [] {
      forall k | 0 <= k < |leaves|
        ensures HasIndex(es, k)
      {
        assert es[from[k]].index == k;
      }
      forall ls | Covers(sha, es, ls)
        ensures ls == leaves
      {
        forall k | 0 <= k < |ls|
          ensures ls[k] == leaves[k]
        {
          assert HasIndex(es, k);
        }
      }
    }
  }

  lemma SizesCount(es: seq<Entry>, table: map<nat, Entry>, from: map<nat, nat>, sizes: seq<nat>)
    requires HeadTable(es, |es|, table, from) && Ascending(sizes)
    requires forall z: nat :: z in sizes <==> z in table
    ensures TwoSizes(es) <==> |sizes| >= 2
  {
    if |sizes| >= 2 {
      assert sizes[0] in sizes && sizes[1] in sizes;
      var i, j := from[sizes[0]], from[sizes[1]];
      assert es[i].sth.size != es[j].sth.size;
    }
    if TwoSizes(es) {
      var i: nat, j: nat :| i < |es| && j < |es| && es[i].sth.size != es[j].sth.size;
      assert es[i].sth.size in sizes && es[j].sth.size in sizes;
    }
  }

  /** Without equivocation, checking one head per size checks them all. */
  lemma HeadsDecide(sha: Sha, es: seq<Entry>, sig: SigOk, table: map<nat, Entry>, from: map<nat, nat>, sizes: seq<nat>,
                    leaves: seq<Digest>, forks: seq<Reason>, badHeads: seq<Reason>)
    requires HeadTable(es, |es|, table, from)
    requires forks == [] <==> NoEquivocation(es)
    requires forall z: nat :: z in sizes <==> z in table
    requires badHeads == [] <==> forall z: nat :: z in sizes ==> sig(table[z]) && RootMatches(sha, table[z], leaves)
    ensures forks == [] ==> (badHeads == [] <==> Signed(es, sig) && RootsMatch(sha, es, leaves))
  {
    hide Root, Multihash.ToDigest;
    if forks == [] && badHeads == [] {
      forall i: nat | FirstOfSize(es, i)
        ensures sig(es[i])
      {
        assert from[es[i].sth.size] == i && es[i].sth.size in sizes;
      }
      forall i: nat | i < |es|
        ensures RootMatches(sha, es[i], leaves)
      {
        var z := es[i].sth.size;
        assert z in sizes && es[from[z]].sth.root == es[i].sth.root;
      }
    }
    if forks == [] && Signed(es, sig) && RootsMatch(sha, es, leaves) {
      forall z: nat | z in sizes
        ensures sig(table[z]) && RootMatches(sha, table[z], leaves)
      {
        assert FirstOfSize(es, from[z]);
      }
    }
  }

  /** A receipt as an honest log with these leaves gives it out. */
  ghost predicate Honest(sha: Sha, leaves: seq<Digest>, e: Entry) {
    && 0 <= e.index < |leaves| && Leaf(sha, e) == Some(leaves[e.index])
    && e.sth.size <= |leaves| && e.sth.root == Multihash.FromDigest(Root(sha, leaves[..e.sth.size]))
  }

  /** Completeness: signed receipts of one honest log that mention two sizes and every leaf of the
      larger trees describe one history, so the checker answers ok on them. */
  lemma HonestReceiptsPass(sha: Sha, es: seq<Entry>, sig: SigOk, leaves: seq<Digest>, n: nat)
    requires OneLog(es) && TwoSizes(es) && Signed(es, sig)
    requires forall i :: 0 <= i < |es| ==> Honest(sha, leaves, es[i]) && es[i].sth.size <= n
    requires n <= |leaves| && (exists i :: 0 <= i < |es| && es[i].sth.size == n)
    requires forall k :: 0 <= k < n ==> HasIndex(es, k)
    ensures OneHistory(sha, es, sig, leaves[..n])
  {
    hide Root, Leaf, Multihash.FromDigest, Multihash.ToDigest;
    forall i | 0 <= i < |es|
      ensures RootMatches(sha, es[i], leaves[..n])
    {
      var size := es[i].sth.size;
      assert Honest(sha, leaves, es[i]);
      assert leaves[..n][..size] == leaves[..size];
      Multihash.RoundTrip(Root(sha, leaves[..size]));
    }
  }
}
