/**
  RFC 6962 trees (src/merkle.ts): the Merkle tree hash, audit paths and consistency
  proofs, all generated top-down by splitting at the largest power of two below n.
 */
module Merkle {
  import opened Basics

  // ---------------------------------------------------------------- hashing

  function LeafInput(data: Bytes): Bytes {
    [0] + data
  }

  function LeafHash(sha: Sha, data: Bytes): Digest {
    sha(LeafInput(data))
  }

  /** The source joins whatever bytes it is given; that they are digests is for the caller to see to. */
  function NodeInput(left: Bytes, right: Bytes): Bytes {
    [1] + left + right
  }

  function NodeHash(sha: Sha, left: Bytes, right: Bytes): Digest {
    sha(NodeInput(left, right))
  }

  /** Concatenation loses nothing exactly when the cut is in the same place, as with digests. */
  lemma NodeInputInjective(l: Bytes, r: Bytes, l': Bytes, r': Bytes)
    requires NodeInput(l, r) == NodeInput(l', r')
    ensures l == l' && r == r' <==> |l| == |l'|
  {
    assert NodeInput(l, r)[1..|l| + 1] == l && NodeInput(l, r)[|l| + 1..] == r;
    assert NodeInput(l', r')[1..|l'| + 1] == l' && NodeInput(l', r')[|l'| + 1..] == r';
  }

  /** The prefixes keep leaves, interior nodes and the empty tree apart. */
  lemma InputsSeparate(data: Bytes, l: Bytes, r: Bytes)
    ensures LeafInput(data) != NodeInput(l, r) && LeafInput(data) != [] && NodeInput(l, r) != []
  {
    assert LeafInput(data)[0] == 0 && NodeInput(l, r)[0] == 1;
  }

  // ---------------------------------------------------------------- powers of two

  function Pow2(e: nat): (p: nat)
    ensures p > 0
  {
    if e == 0 then 1 else 2 * Pow2(e - 1)
  }

  ghost predicate IsPow2(x: nat) {
    exists e: nat :: x == Pow2(e)
  }

  lemma {:induction false} Pow2Apart(a: nat, b: nat)
    requires a < b
    ensures 2 * Pow2(a) <= Pow2(b)
    decreases b
  {
    if a < b - 1 {
      Pow2Apart(a, b - 1);
    }
  }

  lemma {:induction false} SplitExponentExists(n: nat, e: nat) returns (r: nat)
    requires e < Pow2(e) < n
    ensures r < n && Pow2(r) < n <= 2 * Pow2(r)
    decreases n - Pow2(e)
  {
    if 2 * Pow2(e) < n {
      r := SplitExponentExists(n, e + 1);
    } else {
      r := e;
    }
  }

  lemma SplitExponentUnique(n: nat, d: nat, e: nat)
    requires Pow2(d) < n <= 2 * Pow2(d)
    requires Pow2(e) < n <= 2 * Pow2(e)
    ensures d == e
  {
    if d < e {
      Pow2Apart(d, e);
    } else if e < d {
      Pow2Apart(e, d);
    }
  }

  /** The e with 2^e < n <= 2^(e+1). */
  function SplitExponent(n: nat): (e: nat)
    requires n > 1
    ensures Pow2(e) < n <= 2 * Pow2(e)
  {
    assert exists e: nat :: e < n && Pow2(e) < n <= 2 * Pow2(e) by {
      var e := SplitExponentExists(n, 0);
    }
    assert forall d: nat, e: nat ::
        Pow2(d) < n <= 2 * Pow2(d) && Pow2(e) < n <= 2 * Pow2(e) ==> d == e by {
      forall d: nat, e: nat | Pow2(d) < n <= 2 * Pow2(d) && Pow2(e) < n <= 2 * Pow2(e)
        ensures d == e
      {
        SplitExponentUnique(n, d, e);
      }
    }
    var e: nat :| e < n && Pow2(e) < n <= 2 * Pow2(e);
    e
  }

  /** The largest power of two strictly below n. */
  function Split(n: nat): (k: nat)
    requires n > 1
    ensures 0 < k < n <= 2 * k
  {
    Pow2(SplitExponent(n))
  }

  /** The loop of the source: double k while 2k is still below n. */
  method LargestPowerOfTwoBelow(n: nat) returns (k: nat)
    requires n > 1
    ensures IsPow2(k) && k < n
    ensures forall p: nat :: IsPow2(p) && p < n ==> p <= k
    ensures k == Split(n)
  {
    k := 1;
    ghost var e := 0;
    while 2 * k < n
      invariant k == Pow2(e) && k < n
      decreases n - k
    {
      k := 2 * k;
      e := e + 1;
    }
    forall p: nat | IsPow2(p) && p < n
      ensures p <= k
    {
      var f: nat :| p == Pow2(f);
      if e < f {
        Pow2Apart(e, f);
      } else if f < e {
        Pow2Apart(f, e);
      }
    }
    SplitExponentUnique(n, e, SplitExponent(n));
  }

  /** Levels above the leaves of a tree of n leaves: ceil(log2 n). */
  function Height(n: nat): nat
    requires n > 0
  {
    if n == 1 then 0 else SplitExponent(n) + 1
  }

  /** Height is the least h with n <= 2^h. */
  lemma HeightLeast(n: nat, h: nat)
    requires n > 0
    ensures n <= Pow2(h) <==> Height(n) <= h
  {
    if n > 1 {
      var e := SplitExponent(n);
      if h <= e {
        if h < e {
          Pow2Apart(h, e);
        }
      } else if e + 1 < h {
        Pow2Apart(e + 1, h);
      }
    }
  }

  lemma HeightSplit(n: nat)
    requires n > 1
    ensures Height(Split(n)) <= Height(n) - 1
    ensures Height(n - Split(n)) <= Height(n) - 1
  {
    HeightLeast(Split(n), SplitExponent(n));
    HeightLeast(n - Split(n), SplitExponent(n));
  }

  // ---------------------------------------------------------------- tree hash and proofs

  /** Merkle tree hash of a list of leaf hashes. */
  function Root(sha: Sha, leaves: seq<Digest>): Digest
    decreases |leaves|
  {
    var n := |leaves|;
    if n == 0 then sha([])
    else if n == 1 then leaves[0]
    else
      var k := Split(n);
      NodeHash(sha, Root(sha, leaves[..k]), Root(sha, leaves[k..]))
  }

  /** Every byte string hashed while computing `Root`. */
  ghost function RootInputs(sha: Sha, leaves: seq<Digest>): set<Bytes>
    decreases |leaves|
  {
    var n := |leaves|;
    if n == 0 then {[]}
    else if n == 1 then {}
    else
      var k := Split(n);
      RootInputs(sha, leaves[..k]) + RootInputs(sha, leaves[k..])
      + {NodeInput(Root(sha, leaves[..k]), Root(sha, leaves[k..]))}
  }

  /** Audit path of leaf m, siblings bottom-up. */
  function AuditPath(sha: Sha, leaves: seq<Digest>, m: nat): (path: seq<Digest>)
    requires m < |leaves|
    decreases |leaves|
  {
    var n := |leaves|;
    if n == 1 then []
    else
      var k := Split(n);
      if m < k then AuditPath(sha, leaves[..k], m) + [Root(sha, leaves[k..])]
      else AuditPath(sha, leaves[k..], m - k) + [Root(sha, leaves[..k])]
  }

  datatype ProofError = OutOfRange | PathTooLong | PathTooShort

  function InclusionProof(sha: Sha, leaves: seq<Digest>, m: int): Result<seq<Digest>, ProofError> {
    if 0 <= m < |leaves| then Ok(AuditPath(sha, leaves, m)) else Err(OutOfRange)
  }

  function Subproof(sha: Sha, m: nat, leaves: seq<Digest>, known: bool): seq<Digest>
    requires 0 < m <= |leaves|
    decreases |leaves|
  {
    var n := |leaves|;
    if m == n then (if known then [] else [Root(sha, leaves)])
    else
      var k := Split(n);
      if m <= k then Subproof(sha, m, leaves[..k], known) + [Root(sha, leaves[k..])]
      else Subproof(sha, m - k, leaves[k..], false) + [Root(sha, leaves[..k])]
  }

  function ConsistencyProof(sha: Sha, leaves: seq<Digest>, m: int): Result<seq<Digest>, ProofError> {
    if m < 0 || m > |leaves| then Err(OutOfRange)
    else if m == 0 || m == |leaves| then Ok([])
    else Ok(Subproof(sha, m, leaves, true))
  }

  // ---------------------------------------------------------------- which side siblings are on

  /** Put sibling c beside h: on the left when `left`, on the right otherwise. */
  function Combine(sha: Sha, h: Bytes, c: Bytes, left: bool): Digest {
    if left then NodeHash(sha, c, h) else NodeHash(sha, h, c)
  }

  function CombineInput(h: Bytes, c: Bytes, left: bool): Bytes {
    if left then NodeInput(c, h) else NodeInput(h, c)
  }

  /** Climb from x through the siblings of `path`. */
  function Fold(sha: Sha, x: Bytes, path: seq<Bytes>, sides: seq<bool>): (h: Bytes)
    requires |path| == |sides|
    ensures |x| == 32 || path != [] ==> |h| == 32
    decreases |path|
  {
    if path == [] then x
    else
      var i := |path| - 1;
      Combine(sha, Fold(sha, x, path[..i], sides[..i]), path[i], sides[i])
  }

  /** Every byte string hashed while computing `Fold`. */
  ghost function FoldInputs(sha: Sha, x: Bytes, path: seq<Bytes>, sides: seq<bool>): set<Bytes>
    requires |path| == |sides|
    decreases |path|
  {
    if path == [] then {}
    else
      var i := |path| - 1;
      FoldInputs(sha, x, path[..i], sides[..i])
      + {CombineInput(Fold(sha, x, path[..i], sides[..i]), path[i], sides[i])}
  }

  lemma FoldNil(sha: Sha, x: Bytes)
    ensures Fold(sha, x, [], []) == x
  {
  }

  lemma FoldLength(sha: Sha, x: Bytes, path: seq<Bytes>, sides: seq<bool>)
    requires |path| == |sides|
    ensures |Fold(sha, x, path, sides)| == if path == [] then |x| else 32
  {
  }

  lemma FoldSnoc(sha: Sha, x: Bytes, path: seq<Bytes>, sides: seq<bool>, c: Bytes, left: bool)
    requires |path| == |sides|
    ensures Fold(sha, x, path + [c], sides + [left]) == Combine(sha, Fold(sha, x, path, sides), c, left)
  {
    assert (path + [c])[..|path|] == path;
    assert (sides + [left])[..|sides|] == sides;
  }

  lemma FoldUnfolds(sha: Sha, x: Bytes, path: seq<Bytes>, sides: seq<bool>)
    requires 0 < |path| == |sides|
    ensures var top := |path| - 1;
      var below := Fold(sha, x, path[..top], sides[..top]);
      && Fold(sha, x, path, sides) == Combine(sha, below, path[top], sides[top])
      && FoldInputs(sha, x, path, sides)
         == FoldInputs(sha, x, path[..top], sides[..top]) + {CombineInput(below, path[top], sides[top])}
  {
  }

  /** The last step of a climb that ends in the hash of l and r: either it joined exactly
      l and r, or what it hashed collides with the node of l and r. What was climbed to must be as
      long as what it should be, or the two may be cut elsewhere. */
  lemma TopStep(sha: Sha, x: Bytes, path: seq<Bytes>, sides: seq<bool>, l: Bytes, r: Bytes)
    requires 0 < |path| == |sides|
    requires var top := |path| - 1; |Fold(sha, x, path[..top], sides[..top])| == |if sides[top] then r else l|
    requires Fold(sha, x, path, sides) == NodeHash(sha, l, r)
    ensures var top := |path| - 1;
      var below := Fold(sha, x, path[..top], sides[..top]);
      || (sides[top] && path[top] == l && below == r)
      || (!sides[top] && path[top] == r && below == l)
      || Collides(sha, FoldInputs(sha, x, path, sides), {NodeInput(l, r)})
    ensures FoldInputs(sha, x, path[..|path| - 1], sides[..|path| - 1]) <= FoldInputs(sha, x, path, sides)
  {
    hide Fold, FoldInputs;
    var top := |path| - 1;
    var below := Fold(sha, x, path[..top], sides[..top]);
    var mine := CombineInput(below, path[top], sides[top]);
    FoldUnfolds(sha, x, path, sides);
    assert sha(mine) == sha(NodeInput(l, r));
    if mine == NodeInput(l, r) {
      assert |mine| == |NodeInput(l, r)|;
      if sides[top] {
        NodeInputInjective(path[top], below, l, r);
      } else {
        NodeInputInjective(below, path[top], l, r);
      }
    }
  }

  lemma RootSplits(sha: Sha, leaves: seq<Digest>)
    requires |leaves| > 1
    ensures var k := Split(|leaves|); var l, r := leaves[..k], leaves[k..];
      && Root(sha, leaves) == NodeHash(sha, Root(sha, l), Root(sha, r))
      && RootInputs(sha, l) + RootInputs(sha, r) + {NodeInput(Root(sha, l), Root(sha, r))} == RootInputs(sha, leaves)
  {
  }

  /** The sides an audit path has, read off the tree top-down. */
  function TreeSides(m: nat, n: nat): seq<bool>
    requires m < n
    decreases n
  {
    if n == 1 then []
    else
      var k := Split(n);
      if m < k then TreeSides(m, k) + [false] else TreeSides(m - k, n - k) + [true]
  }

  /** The sides a consistency proof has after its first node, read off the tree top-down. */
  function TreeSplits(m: nat, n: nat): seq<bool>
    requires 0 < m <= n
    decreases n
  {
    if m == n then []
    else
      var k := Split(n);
      if m <= k then TreeSplits(m, k) + [false] else TreeSplits(m - k, n - k) + [true]
  }

  /** The sides as the verifiers find them, bottom-up from the bits of the indices:
      a rightmost node that is a left child has no sibling on its level and is lifted. */
  function BitSides(fn: nat, sn: nat): (sides: seq<bool>)
    requires fn <= sn
    ensures sides == [] <==> sn == 0
  {
    if sn == 0 then []
    else if fn == sn && fn % 2 == 0 then BitSides(fn / 2, sn / 2)
    else [fn % 2 == 1] + BitSides(fn / 2, sn / 2)
  }

  /** As `BitSides`, after the trailing one bits of fn are dropped. */
  function BitSplits(fn: nat, sn: nat): seq<bool>
    requires fn <= sn
  {
    if fn % 2 == 1 then BitSplits(fn / 2, sn / 2) else BitSides(fn, sn)
  }

  /** The inner loop of both verifiers: a last node on an even position has no sibling on its
      level and moves up until it is a right child. */
  method Lift(fn0: nat, sn0: nat) returns (fn: nat, sn: nat)
    requires fn0 <= sn0 && sn0 > 0 && (fn0 % 2 == 1 || fn0 == sn0)
    ensures fn <= sn && 0 < sn <= sn0 && fn % 2 == 1
    ensures BitSides(fn0, sn0) == [true] + BitSides(fn / 2, sn / 2)
  {
    fn, sn := fn0, sn0;
    while fn % 2 == 0 && fn != 0
      invariant fn <= sn && 0 < sn <= sn0 && (fn % 2 == 1 || fn == sn)
      invariant BitSides(fn, sn) == BitSides(fn0, sn0)
    {
      fn, sn := fn / 2, sn / 2;
    }
  }

  lemma BitSidesStep(fn: nat, sn: nat)
    requires fn < sn && fn % 2 == 0
    ensures BitSides(fn, sn) == [false] + BitSides(fn / 2, sn / 2)
  {
  }

  // A left subtree is full: its top sibling is on the right.
  lemma {:induction false} BitSidesLeft(fn: nat, sn: nat, e: nat)
    requires fn < Pow2(e) <= sn < 2 * Pow2(e)
    ensures BitSides(fn, sn) == BitSides(fn, Pow2(e) - 1) + [false]
    decreases e
  {
    if e > 0 {
      BitSidesLeft(fn / 2, sn / 2, e - 1);
      assert (Pow2(e) - 1) / 2 == Pow2(e - 1) - 1;
    }
  }

  // A right subtree adds one top bit to both indices: its top sibling is on the left.
  lemma {:induction false} BitSidesRight(fn: nat, sn: nat, e: nat)
    requires fn <= sn < Pow2(e)
    ensures BitSides(Pow2(e) + fn, Pow2(e) + sn) == BitSides(fn, sn) + [true]
    decreases e
  {
    if e > 0 {
      BitSidesRight(fn / 2, sn / 2, e - 1);
      assert (Pow2(e) + fn) / 2 == Pow2(e - 1) + fn / 2;
      assert (Pow2(e) + sn) / 2 == Pow2(e - 1) + sn / 2;
      assert (Pow2(e) + fn) % 2 == fn % 2;
    } else {
      assert BitSides(1, 1) == [true] + BitSides(0, 0);
    }
  }

  lemma {:induction false} BitSplitsLeft(fn: nat, sn: nat, e: nat)
    requires fn < Pow2(e) <= sn < 2 * Pow2(e)
    ensures BitSplits(fn, sn) == BitSplits(fn, Pow2(e) - 1) + [false]
    decreases e
  {
    if fn % 2 == 1 {
      BitSplitsLeft(fn / 2, sn / 2, e - 1);
      assert (Pow2(e) - 1) / 2 == Pow2(e - 1) - 1;
    } else {
      BitSidesLeft(fn, sn, e);
    }
  }

  lemma {:induction false} BitSplitsRight(fn: nat, sn: nat, e: nat)
    requires fn < sn < Pow2(e)
    ensures BitSplits(Pow2(e) + fn, Pow2(e) + sn) == BitSplits(fn, sn) + [true]
    decreases e
  {
    assert (Pow2(e) + fn) % 2 == fn % 2;
    if fn % 2 == 1 {
      BitSplitsRight(fn / 2, sn / 2, e - 1);
      assert (Pow2(e) + fn) / 2 == Pow2(e - 1) + fn / 2;
      assert (Pow2(e) + sn) / 2 == Pow2(e - 1) + sn / 2;
    } else {
      BitSidesRight(fn, sn, e);
    }
  }

  lemma {:induction false} BitSplitsFull(e: nat)
    ensures BitSplits(Pow2(e) - 1, Pow2(e) - 1) == []
  {
    if e > 0 {
      assert (Pow2(e) - 1) / 2 == Pow2(e - 1) - 1;
      BitSplitsFull(e - 1);
    }
  }

  /** The verifier's bit walk visits exactly the levels the generator recursed through. */
  lemma {:induction false} SidesAgree(m: nat, n: nat)
    requires m < n
    ensures BitSides(m, n - 1) == TreeSides(m, n)
    decreases n
  {
    hide BitSides;
    if n > 1 {
      var k, e := Split(n), SplitExponent(n);
      if m < k {
        BitSidesLeft(m, n - 1, e);
        SidesAgree(m, k);
      } else {
        BitSidesRight(m - k, n - k - 1, e);
        SidesAgree(m - k, n - k);
      }
    }
  }

  /** The same for consistency proofs; inside the tree m == n arises only at a full subtree. */
  lemma {:induction false} SplitsAgree(m: nat, n: nat)
    requires 0 < m < n || (0 < m == n && IsPow2(n))
    ensures BitSplits(m - 1, n - 1) == TreeSplits(m, n)
    decreases n
  {
    if m == n {
      var e: nat :| n == Pow2(e);
      BitSplitsFull(e);
    } else {
      var k, e := Split(n), SplitExponent(n);
      if m <= k {
        BitSplitsLeft(m - 1, n - 1, e);
        SplitsAgree(m, k);
      } else {
        BitSplitsRight(m - k - 1, n - k - 1, e);
        SplitsAgree(m - k, n - k);
      }
    }
  }

  // ---------------------------------------------------------------- the tree hash as the standard has it

  /** Section 2.1 of RFC 6962: the hash of no leaves is that of the empty string, of one the leaf hash, of more the
      hash of 0x01 and both halves, the first being the largest power of two below the number of leaves. */
  lemma TreeHashMeans(sha: Sha, data: Bytes, leaves: seq<Digest>)
    ensures LeafHash(sha, data) == sha([0x00] + data)
    ensures |leaves| == 0 ==> Root(sha, leaves) == sha([])
    ensures |leaves| == 1 ==> Root(sha, leaves) == leaves[0]
    ensures |leaves| > 1 ==>
      exists k: nat :: IsPow2(k) && k < |leaves| <= 2 * k
        && Root(sha, leaves) == sha([0x01] + Root(sha, leaves[..k]) + Root(sha, leaves[k..]))
  {
    if |leaves| > 1 {
      assert IsPow2(Split(|leaves|));
    }
  }
}
