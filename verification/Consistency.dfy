/**
  Consistency proofs (src/merkle.ts:127-206): an accepted proof pins the older root to a
  prefix of the newer tree, and the generated proof is always accepted.
 */
module Consistency {
  import opened Basics
  import opened Merkle

  // ---------------------------------------------------------------- the power-of-two test

  /** Bitwise and. */
  function And(a: nat, b: nat): nat {
    if a == 0 || b == 0 then 0
    else 2 * And(a / 2, b / 2) + (if a % 2 == 1 && b % 2 == 1 then 1 else 0)
  }

  predicate IsPowerOfTwo(x: int) {
    x > 0 && And(x, x - 1) == 0
  }

  lemma {:induction false} AndSelf(a: nat)
    ensures And(a, a) == a
  {
    if a > 0 {
      AndSelf(a / 2);
    }
  }

  lemma {:induction false} IsPowerOfTwoCorrect(x: nat)
    ensures IsPowerOfTwo(x) <==> IsPow2(x)
    decreases x
  {
    if x == 1 {
      assert x == Pow2(0);
    } else if x > 1 && x % 2 == 0 {
      IsPowerOfTwoCorrect(x / 2);
      assert (x - 1) / 2 == x / 2 - 1;
      if IsPow2(x / 2) {
        var e: nat :| x / 2 == Pow2(e);
        assert x == Pow2(e + 1);
      }
      if IsPow2(x) {
        var e: nat :| x == Pow2(e);
        assert x / 2 == Pow2(e - 1);
      }
    } else if x > 1 {
      AndSelf(x / 2);
      assert (x - 1) / 2 == x / 2;
      assert !IsPow2(x);
    }
  }

  // ---------------------------------------------------------------- the verifier

  /** The older root rebuilt from the proof: only siblings on the left belong to it. */
  function OldFold(sha: Sha, seed: Bytes, path: seq<Bytes>, splits: seq<bool>): Bytes
    requires |path| == |splits|
    decreases |path|
  {
    if path == [] then seed
    else
      var i := |path| - 1;
      var below := OldFold(sha, seed, path[..i], splits[..i]);
      if splits[i] then NodeHash(sha, path[i], below) else below
  }

  lemma OldFoldSnoc(sha: Sha, seed: Bytes, path: seq<Bytes>, splits: seq<bool>, c: Bytes, left: bool)
    requires |path| == |splits|
    ensures OldFold(sha, seed, path + [c], splits + [left])
         == (if left then NodeHash(sha, c, OldFold(sha, seed, path, splits)) else OldFold(sha, seed, path, splits))
  {
    assert (path + [c])[..|path|] == path;
    assert (splits + [left])[..|splits|] == splits;
  }

  /** The proof with the node the verifier already knows put back in front. */
  function FullProof(m: int, oldRoot: Bytes, proof: seq<Bytes>): seq<Bytes> {
    if IsPowerOfTwo(m) then [oldRoot] + proof else proof
  }

  /** The nodes of an unabridged proof lead to both roots. */
  predicate Rebuilds(sha: Sha, nodes: seq<Bytes>, splits: seq<bool>, oldRoot: Bytes, newRoot: Bytes) {
    && |nodes| == |splits| + 1
    && OldFold(sha, nodes[0], nodes[1..], splits) == oldRoot
    && Fold(sha, nodes[0], nodes[1..], splits) == newRoot
  }

  /** Levels the walk climbs when the smaller index is negative and therefore never odd. */
  function Levels(sn: int): nat
    decreases if sn > 0 then sn else 0
  {
    if sn <= 0 then 0 else 1 + Levels(sn / 2)
  }

  function RightOnly(levels: nat): seq<bool> {
    seq(levels, _ => false)
  }

  /** The sides the verifier walks for these sizes; nothing stops a negative one. */
  function Splits(m: int, n: int): seq<bool>
    requires m != 0 && m < n
  {
    if m > 0 then TreeSplits(m, n) else RightOnly(Levels(n - 1))
  }

  /** What is left of the walk at these indices. */
  function Remaining(fn: int, sn: int): seq<bool>
    requires fn < 0 || fn <= sn
  {
    if fn < 0 then RightOnly(Levels(sn)) else BitSides(fn, sn)
  }

  lemma RemainingStep(fn: int, sn: int)
    requires fn < sn && sn > 0 && (fn < 0 || fn % 2 == 0)
    ensures Remaining(fn, sn) == [false] + Remaining(fn / 2, sn / 2)
  {
    if fn >= 0 {
      BitSidesStep(fn, sn);
    }
  }

  /** What `verifyConsistency` answers, without its loops. */
  predicate Accepted(sha: Sha, m: int, n: int, oldRoot: Bytes, newRoot: Bytes, proof: seq<Bytes>) {
    if m == 0 then true
    else if m == n then proof == [] && oldRoot == newRoot
    else if m > n then false
    else Rebuilds(sha, FullProof(m, oldRoot, proof), Splits(m, n), oldRoot, newRoot)
  }

  method VerifyConsistency(sha: Sha, m: int, n: int, oldRoot: Bytes, newRoot: Bytes, proof: seq<Bytes>)
    returns (ok: bool)
    ensures ok <==> Accepted(sha, m, n, oldRoot, newRoot, proof)
  {
    if m == 0 {
      return true;
    }
    if m == n {
      return proof == [] && oldRoot == newRoot;
    }
    if m > n {
      return false;
    }
    var path := proof;
    if IsPowerOfTwo(m) {
      path := [oldRoot] + path;
    }
    if |path| == 0 {
      return false;
    }
    ok := WalkProof(sha, m, n, oldRoot, newRoot, path);
  }

  /** The two loops over the bits of `fn` and `sn`. The remainder of a negative number is never 1. */
  method WalkProof(sha: Sha, m: int, n: int, oldRoot: Bytes, newRoot: Bytes, path: seq<Bytes>)
    returns (ok: bool)
    requires m != 0 && m < n && |path| > 0
    ensures ok <==> Rebuilds(sha, path, Splits(m, n), oldRoot, newRoot)
  {
    hide Rebuilds, TreeSplits, BitSides, RightOnly, NodeHash, NodeInput;
    ghost var splits := Splits(m, n);
    RebuildsLength(sha, path, splits, oldRoot, newRoot);
    if m > 0 {
      SplitsAgree(m, n);
    }
    var fn, sn := m - 1, n - 1;
    while fn >= 0 && fn % 2 == 1
      invariant m > 0 ==> 0 <= fn <= sn && BitSplits(fn, sn) == splits
      invariant m < 0 ==> fn < 0 && sn == n - 1
      decreases fn
    {
      fn, sn := fn / 2, sn / 2;
    }
    var pos := 0;
    var fr, sr := path[pos], path[pos];
    pos := pos + 1;
    RebuildsOne(sha, path[0]);
    assert path[..1] == [path[0]];
    while sn > 0
      invariant 1 <= pos <= |path| && pos - 1 <= |splits|
      invariant (fn < 0 || fn <= sn) && Remaining(fn, sn) == splits[pos - 1..]
      invariant Rebuilds(sha, path[..pos], splits[..pos - 1], fr, sr)
      decreases sn
    {
      if pos >= |path| {
        NotDone(fn, sn);
        return false;
      }
      var c := path[pos];
      NotDone(fn, sn);
      RebuildsSnoc(sha, path[..pos], splits[..pos - 1], fr, sr, c, splits[pos - 1]);
      assert path[..pos + 1] == path[..pos] + [c] && splits[..pos] == splits[..pos - 1] + [splits[pos - 1]];
      pos := pos + 1;
      if (fn >= 0 && fn % 2 == 1) || fn == sn {
        fr := NodeHash(sha, c, fr);
        sr := NodeHash(sha, c, sr);
        fn, sn := Lift(fn, sn);
      } else {
        RemainingStep(fn, sn);
        sr := NodeHash(sha, sr, c);
      }
      fn, sn := fn / 2, sn / 2;
    }
    Done(fn, sn);
    if pos == |path| {
      assert path[..pos] == path && splits[..pos - 1] == splits;
      RebuildsExact(sha, path, splits, fr, sr, oldRoot, newRoot);
    }
    ok := pos == |path| && fr == oldRoot && sr == newRoot;
  }

  lemma NotDone(fn: int, sn: int)
    requires sn > 0 && (fn < 0 || fn <= sn)
    ensures Remaining(fn, sn) != []
  {
  }

  lemma Done(fn: int, sn: int)
    requires sn <= 0 && (fn < 0 || fn <= sn)
    ensures Remaining(fn, sn) == []
  {
  }

  lemma RebuildsLength(sha: Sha, nodes: seq<Bytes>, splits: seq<bool>, oldRoot: Bytes, newRoot: Bytes)
    ensures Rebuilds(sha, nodes, splits, oldRoot, newRoot) ==> |nodes| == |splits| + 1
  {
  }

  lemma RebuildsExact(sha: Sha, nodes: seq<Bytes>, splits: seq<bool>, fr: Bytes, sr: Bytes, oldRoot: Bytes,
      newRoot: Bytes)
    requires Rebuilds(sha, nodes, splits, fr, sr)
    ensures Rebuilds(sha, nodes, splits, oldRoot, newRoot) <==> oldRoot == fr && newRoot == sr
  {
  }

  // ---------------------------------------------------------------- completeness

  lemma {:induction false} SplitsBounded(m: nat, n: nat)
    requires 0 < m <= n
    ensures |TreeSplits(m, n)| <= Height(n)
    decreases n
  {
    if m < n {
      var k := Split(n);
      HeightSplit(n);
      if m <= k {
        SplitsBounded(m, k);
      } else {
        SplitsBounded(m - k, n - k);
      }
    }
  }

  /** The unabridged proof of size m in `leaves` rebuilds both roots. */
  lemma {:induction false} SubproofFolds(sha: Sha, m: nat, leaves: seq<Digest>)
    requires 0 < m <= |leaves|
    ensures Rebuilds(sha, Subproof(sha, m, leaves, false), TreeSplits(m, |leaves|),
                     Root(sha, leaves[..m]), Root(sha, leaves))
    decreases |leaves|
  {
    hide Rebuilds, Split, Root;
    var n := |leaves|;
    if m == n {
      assert leaves[..m] == leaves;
      RebuildsOne(sha, Root(sha, leaves));
    } else {
      var k := Split(n);
      var l, r := leaves[..k], leaves[k..];
      RootSplits(sha, leaves);
      if m <= k {
        SubproofFolds(sha, m, l);
        assert l[..m] == leaves[..m];
        RebuildsSnoc(sha, Subproof(sha, m, l, false), TreeSplits(m, k), Root(sha, leaves[..m]), Root(sha, l),
                     Root(sha, r), false);
      } else {
        SubproofFolds(sha, m - k, r);
        RootOfPrefix(sha, leaves, m);
        RebuildsSnoc(sha, Subproof(sha, m - k, r, false), TreeSplits(m - k, n - k), Root(sha, r[..m - k]), Root(sha, r),
                     Root(sha, l), true);
      }
    }
  }

  lemma RebuildsOne(sha: Sha, seed: Bytes)
    ensures Rebuilds(sha, [seed], [], seed, seed)
  {
  }

  lemma RebuildsSnoc(sha: Sha, nodes: seq<Bytes>, splits: seq<bool>, oldRoot: Bytes, newRoot: Bytes, c: Bytes,
      left: bool)
    requires Rebuilds(sha, nodes, splits, oldRoot, newRoot)
    ensures Rebuilds(sha, nodes + [c], splits + [left],
                     if left then NodeHash(sha, c, oldRoot) else oldRoot, Combine(sha, newRoot, c, left))
  {
    assert (nodes + [c])[1..] == nodes[1..] + [c];
    FoldSnoc(sha, nodes[0], nodes[1..], splits, c, left);
    OldFoldSnoc(sha, nodes[0], nodes[1..], splits, c, left);
  }

  /** A prefix reaching past the left subtree of n leaves splits at the same place. */
  lemma RootOfPrefix(sha: Sha, leaves: seq<Digest>, m: nat)
    requires |leaves| > 1 && Split(|leaves|) < m <= |leaves|
    ensures var k := Split(|leaves|);
      Root(sha, leaves[..m]) == NodeHash(sha, Root(sha, leaves[..k]), Root(sha, leaves[k..][..m - k]))
  {
    var k := Split(|leaves|);
    SplitExponentUnique(m, SplitExponent(|leaves|), SplitExponent(m));
    assert leaves[..m][..k] == leaves[..k];
    assert leaves[..m][k..] == leaves[k..][..m - k];
  }

  /** The first node is left out exactly when it is the older root itself. */
  lemma {:induction false} SubproofKnown(sha: Sha, m: nat, leaves: seq<Digest>)
    requires 0 < m < |leaves| || (0 < m == |leaves| && IsPow2(m))
    ensures Subproof(sha, m, leaves, false)
         == if IsPow2(m) then [Root(sha, leaves[..m])] + Subproof(sha, m, leaves, true)
            else Subproof(sha, m, leaves, true)
    decreases |leaves|
  {
    hide Root;
    var n := |leaves|;
    if m == n {
      assert leaves[..m] == leaves;
    } else {
      var k := Split(n);
      if m <= k {
        assert leaves[..k][..m] == leaves[..m];
        SubproofKnown(sha, m, leaves[..k]);
      } else if IsPow2(m) {
        var e: nat :| m == Pow2(e);
        if SplitExponent(n) < e {
          Pow2Apart(SplitExponent(n), e);
        } else if e < SplitExponent(n) {
          Pow2Apart(e, SplitExponent(n));
        }
        assert false;
      }
    }
  }

  /** Completeness: for every tree and every older size, the generated proof is accepted
      between the two true roots and has at most ceil(log2 n) + 1 nodes. */
  lemma ConsistencyComplete(sha: Sha, leaves: seq<Digest>, m: int)
    ensures ConsistencyProof(sha, leaves, m).Ok? <==> 0 <= m <= |leaves|
    ensures 0 <= m <= |leaves| ==>
      var proof := ConsistencyProof(sha, leaves, m).value;
      && Accepted(sha, m, |leaves|, Root(sha, leaves[..m]), Root(sha, leaves), proof)
      && (|leaves| > 0 ==> |proof| <= Height(|leaves|) + 1)
  {
    if 0 < m < |leaves| {
      SubproofFolds(sha, m, leaves);
      AbridgeExact(sha, m, leaves, Subproof(sha, m, leaves, true));
      SplitsBounded(m, |leaves|);
    } else if m == |leaves| {
      assert leaves[..m] == leaves;
    }
  }

  // ---------------------------------------------------------------- soundness

  /** If the proof rebuilds the newer root, it is the generated one and rebuilds the true older root. */
  lemma {:induction false} FoldSound(sha: Sha, m: nat, leaves: seq<Digest>, seed: Bytes, path: seq<Bytes>)
    requires |seed| == 32
    requires 0 < m <= |leaves| && |path| == |TreeSplits(m, |leaves|)|
    requires Fold(sha, seed, path, TreeSplits(m, |leaves|)) == Root(sha, leaves)
    ensures [seed] + path == Subproof(sha, m, leaves, false)
         || Collides(sha, FoldInputs(sha, seed, path, TreeSplits(m, |leaves|)), RootInputs(sha, leaves))
    decreases |leaves|
  {
    hide Split, Fold, FoldInputs, Root, RootInputs;
    var n := |leaves|;
    var splits := TreeSplits(m, n);
    if m == n {
      FoldNil(sha, seed);
    } else {
      var k := Split(n);
      var l, r := leaves[..k], leaves[k..];
      var top := |path| - 1;
      assert [seed] + path == ([seed] + path[..top]) + [path[top]];
      RootSplits(sha, leaves);
      TopStep(sha, seed, path, splits, Root(sha, l), Root(sha, r));
      if m <= k {
        assert splits[..top] == TreeSplits(m, k);
        if Fold(sha, seed, path[..top], splits[..top]) == Root(sha, l) {
          FoldSound(sha, m, l, seed, path[..top]);
        }
      } else {
        assert splits[..top] == TreeSplits(m - k, n - k);
        if Fold(sha, seed, path[..top], splits[..top]) == Root(sha, r) {
          FoldSound(sha, m - k, r, seed, path[..top]);
        }
      }
    }
  }

  /** The hash inputs of the walk to the newer root. */
  ghost function ProofInputs(sha: Sha, m: nat, n: nat, oldRoot: Bytes, proof: seq<Bytes>): set<Bytes>
  {
    var nodes := FullProof(m, oldRoot, proof);
    if 0 < m < n && |nodes| == |TreeSplits(m, n)| + 1
    then FoldInputs(sha, nodes[0], nodes[1..], TreeSplits(m, n))
    else {}
  }

  /** The node the walk starts from: the older root itself for a power of two, else the first one sent. */
  function FirstNode(m: int, n: int, oldRoot: Bytes, proof: seq<Bytes>): Bytes {
    if m == n || FullProof(m, oldRoot, proof) == [] then oldRoot else FullProof(m, oldRoot, proof)[0]
  }

  /** Soundness: if the walk starts from 32 bytes, an accepted older root is the root of the first m
      leaves and the proof the generated one, or inputs collide. That length is all the caller has to
      check; every other node may be any bytes. */
  lemma ConsistencySound(sha: Sha, leaves: seq<Digest>, m: nat, oldRoot: Bytes, proof: seq<Bytes>)
    requires m > 0 && Accepted(sha, m, |leaves|, oldRoot, Root(sha, leaves), proof)
    ensures m <= |leaves|
    ensures ((oldRoot == Root(sha, leaves[..m]) && ConsistencyProof(sha, leaves, m) == Ok(proof))
             <==> |FirstNode(m, |leaves|, oldRoot, proof)| == 32)
         || Collides(sha, ProofInputs(sha, m, |leaves|, oldRoot, proof), RootInputs(sha, leaves))
  {
    hide Fold, OldFold, FoldInputs, Root, RootInputs, TreeSplits, Subproof, IsPowerOfTwo;
    var n := |leaves|;
    if m == n {
      assert leaves[..m] == leaves;
    } else {
      var nodes := FullProof(m, oldRoot, proof);
      assert [nodes[0]] + nodes[1..] == nodes;
      if |nodes[0]| == 32 {
        FoldSound(sha, m, leaves, nodes[0], nodes[1..]);
        if nodes == Subproof(sha, m, leaves, false) {
          SubproofFolds(sha, m, leaves);
          AbridgeExact(sha, m, leaves, proof);
        }
      }
    }
  }

  /** The length does matter: two joined leaf hashes, cut anywhere, pass as an older root and a proof. */
  lemma CutElsewhereAccepted(sha: Sha, l: Digest, r: Digest, cut: nat)
    requires cut <= 64
    ensures Accepted(sha, 1, 2, (l + r)[..cut], Root(sha, [l, r]), [(l + r)[cut..]])
  {
    var x, c := (l + r)[..cut], (l + r)[cut..];
    SplitExponentUnique(2, 0, SplitExponent(2));
    assert [l, r][..1] == [l] && [l, r][1..] == [r];
    assert And(1, 0) == 0;
    RebuildsOne(sha, x);
    RebuildsSnoc(sha, [x], [], x, x, c, false);
    assert [x] + [c] == FullProof(1, x, [c]) && TreeSplits(1, 2) == [] + [false];
    assert NodeInput(x, c) == [1] + (x + c) && x + c == l + r && NodeInput(l, r) == [1] + (l + r);
  }

  /** Before any leaf there is nothing to be consistent with: any roots and any proof are accepted. */
  lemma EmptyTreeAcceptsAll(sha: Sha, n: int, oldRoot: Bytes, newRoot: Bytes, proof: seq<Bytes>)
    ensures Accepted(sha, 0, n, oldRoot, newRoot, proof)
  {
  }

  /** A negative size is walked and not refused. */
  lemma NegativeSizeAccepted(sha: Sha, m: int, root: Bytes)
    requires m < 0
    ensures Accepted(sha, m, 1, root, root, [root])
  {
    RebuildsOne(sha, root);
  }

  /** Putting the older root back undoes leaving it out. */
  lemma AbridgeExact(sha: Sha, m: nat, leaves: seq<Digest>, proof: seq<Bytes>)
    requires 0 < m < |leaves|
    ensures FullProof(m, Root(sha, leaves[..m]), proof) == Subproof(sha, m, leaves, false)
       <==> proof == Subproof(sha, m, leaves, true)
  {
    hide Root, Subproof, IsPowerOfTwo;
    SubproofKnown(sha, m, leaves);
    IsPowerOfTwoCorrect(m);
    assert ([Root(sha, leaves[..m])] + proof)[1..] == proof;
    assert ([Root(sha, leaves[..m])] + Subproof(sha, m, leaves, true))[1..] == Subproof(sha, m, leaves, true);
  }

  /** Two walks to one root went through the same nodes, or their inputs collide. */
  lemma {:induction false} FoldDeterminesPath(sha: Sha, sides: seq<bool>, x: Bytes, p: seq<Bytes>, y: Bytes,
      q: seq<Bytes>)
    requires |p| == |q| == |sides| && |x| == |y|
    requires Fold(sha, x, p, sides) == Fold(sha, y, q, sides)
    ensures (x == y && p == q) || Collides(sha, FoldInputs(sha, x, p, sides), FoldInputs(sha, y, q, sides))
    decreases |sides|
  {
    hide Fold, FoldInputs;
    if |sides| == 0 {
      FoldNil(sha, x);
      FoldNil(sha, y);
    } else {
      var top := |sides| - 1;
      var below, c := Fold(sha, y, q[..top], sides[..top]), q[top];
      var l, r := if sides[top] then c else below, if sides[top] then below else c;
      FoldUnfolds(sha, y, q, sides);
      FoldLength(sha, x, p[..top], sides[..top]);
      FoldLength(sha, y, q[..top], sides[..top]);
      TopStep(sha, x, p, sides, l, r);
      assert p == p[..top] + [p[top]] && q == q[..top] + [q[top]];
      if Fold(sha, x, p[..top], sides[..top]) == below {
        FoldDeterminesPath(sha, sides[..top], x, p[..top], y, q[..top]);
      }
    }
  }

  /** No fork: two older roots of the same size, both accepted against one newer root with walks that
      start from equally many bytes, are equal and so are the proofs, or inputs collide. Nothing is
      assumed about how the newer root was made. */
  lemma NoFork(sha: Sha, m: nat, n: nat, newRoot: Bytes, r: Bytes, p: seq<Bytes>, r': Bytes, p': seq<Bytes>)
    requires 0 < m
    requires Accepted(sha, m, n, r, newRoot, p) && Accepted(sha, m, n, r', newRoot, p')
    ensures (r == r' && p == p' <==> |FirstNode(m, n, r, p)| == |FirstNode(m, n, r', p')|)
         || Collides(sha, ProofInputs(sha, m, n, r, p), ProofInputs(sha, m, n, r', p'))
  {
    hide Fold, FoldInputs, OldFold, TreeSplits, IsPowerOfTwo;
    if m < n && |FirstNode(m, n, r, p)| == |FirstNode(m, n, r', p')| {
      var s, s' := FullProof(m, r, p), FullProof(m, r', p');
      assert s == [s[0]] + s[1..] && s' == [s'[0]] + s'[1..];
      FoldDeterminesPath(sha, TreeSplits(m, n), s[0], s[1..], s'[0], s'[1..]);
      if s == s' && IsPowerOfTwo(m) {
        assert p == s[1..] && p' == s'[1..];
      }
    }
  }

  datatype Head = Head(size: nat, root: Digest)

  lemma FirstIsDigest(m: int, n: int, oldRoot: Digest, proof: seq<Digest>)
    ensures |FirstNode(m, n, oldRoot, proof)| == 32
  {
  }

  /** Consecutive heads are linked by accepted proofs. */
  ghost predicate Chain(sha: Sha, heads: seq<Head>, proofs: seq<seq<Digest>>) {
    && |proofs| + 1 == |heads|
    && forall i :: 0 <= i < |proofs| ==>
         && 0 < heads[i].size
         && Accepted(sha, heads[i].size, heads[i + 1].size, heads[i].root, heads[i + 1].root, proofs[i])
  }

  /** Some link of the chain reads a hash input that collides with one of the tree. */
  ghost predicate ChainCollides(sha: Sha, heads: seq<Head>, proofs: seq<seq<Digest>>, leaves: seq<Digest>) {
    exists i :: 0 <= i < |proofs| && i + 1 < |heads| && heads[i + 1].size <= |leaves|
      && Collides(sha, ProofInputs(sha, heads[i].size, heads[i + 1].size, heads[i].root, proofs[i]),
                  RootInputs(sha, leaves[..heads[i + 1].size]))
  }

  /** One history: if the last head of a chain commits to `leaves`, every head of the chain
      commits to a prefix of them, or inputs collide. */
  lemma {:induction false} ChainSound(sha: Sha, heads: seq<Head>, proofs: seq<seq<Digest>>, leaves: seq<Digest>, j: nat)
    requires Chain(sha, heads, proofs) && j < |heads|
    requires heads[|heads| - 1] == Head(|leaves|, Root(sha, leaves))
    ensures (heads[j].size <= |leaves| && heads[j].root == Root(sha, leaves[..heads[j].size]))
         || ChainCollides(sha, heads, proofs, leaves)
    decreases |heads| - j
  {
    hide Root, RootInputs, ProofInputs, Accepted;
    if j == |heads| - 1 {
      assert leaves[..|leaves|] == leaves;
    } else {
      ChainSound(sha, heads, proofs, leaves, j + 1);
      var h, next := heads[j], heads[j + 1];
      if next.size <= |leaves| && next.root == Root(sha, leaves[..next.size]) {
        FirstIsDigest(h.size, next.size, h.root, proofs[j]);
        ConsistencySound(sha, leaves[..next.size], h.size, h.root, proofs[j]);
        assert leaves[..next.size][..h.size] == leaves[..h.size];
      }
    }
  }
}
