/**
  Audit paths (src/merkle.ts:52-125): the bottom-up verifier rebuilds the root from the
  path the generator made, and accepts nothing else unless two hash inputs collide.
 */
module Inclusion {
  import opened Basics
  import opened Merkle

  /** The index walk of the verifier: `fn` is the node, `sn` the last node of its level. */
  method RootFromInclusionProof(sha: Sha, leaf: Bytes, index: int, size: int, path: seq<Bytes>)
    returns (r: Result<Bytes, ProofError>)
    ensures !(0 <= index < size) ==> r == Err(OutOfRange)
    ensures 0 <= index < size ==>
      var sides := TreeSides(index, size);
      r == if |path| > |sides| then Err(PathTooLong)
           else if |path| < |sides| then Err(PathTooShort)
           else Ok(Fold(sha, leaf, path, sides))
  {
    hide Fold, TreeSides, BitSides;
    if index < 0 || index >= size {
      return Err(OutOfRange);
    }
    var fn: nat, sn: nat, hash := index, size - 1, leaf;
    ghost var sides := TreeSides(index, size);
    SidesAgree(index, size);
    FoldNil(sha, leaf);
    for i := 0 to |path|
      invariant i <= |sides| && fn <= sn
      invariant BitSides(fn, sn) == sides[i..]
      invariant hash == Fold(sha, leaf, path[..i], sides[..i])
    {
      if sn == 0 {
        return Err(PathTooLong);
      }
      var sibling := path[i];
      FoldSnoc(sha, leaf, path[..i], sides[..i], sibling, sides[i]);
      assert path[..i + 1] == path[..i] + [sibling] && sides[..i + 1] == sides[..i] + [sides[i]];
      if fn % 2 == 1 || fn == sn {
        hash := NodeHash(sha, sibling, hash);
        fn, sn := Lift(fn, sn);
      } else {
        BitSidesStep(fn, sn);
        hash := NodeHash(sha, hash, sibling);
      }
      fn, sn := fn / 2, sn / 2;
    }
    assert path[..|path|] == path;
    if sn != 0 {
      return Err(PathTooShort);
    }
    assert sides[..|path|] == sides;
    return Ok(hash);
  }

  /** What `verifyInclusion` answers, without its loop. */
  predicate Accepted(sha: Sha, leaf: Bytes, index: int, size: int, path: seq<Bytes>, root: Bytes) {
    && 0 <= index < size
    && |path| == |TreeSides(index, size)|
    && Fold(sha, leaf, path, TreeSides(index, size)) == root
  }

  method VerifyInclusion(sha: Sha, leaf: Bytes, index: int, size: int, path: seq<Bytes>, root: Bytes)
    returns (ok: bool)
    ensures ok <==> Accepted(sha, leaf, index, size, path, root)
  {
    var r := RootFromInclusionProof(sha, leaf, index, size, path);
    match r
    case Ok(computed) => ok := computed == root;
    case Err(_) => ok := false;
  }

  lemma {:induction false} SidesBounded(m: nat, n: nat)
    requires m < n
    ensures |TreeSides(m, n)| <= Height(n)
    decreases n
  {
    if n > 1 {
      var k := Split(n);
      HeightSplit(n);
      if m < k {
        SidesBounded(m, k);
      } else {
        SidesBounded(m - k, n - k);
      }
    }
  }

  /** The generated path leads from its leaf to the root. */
  lemma {:induction false} AuditPathFolds(sha: Sha, leaves: seq<Digest>, m: nat)
    requires m < |leaves|
    ensures |AuditPath(sha, leaves, m)| == |TreeSides(m, |leaves|)|
    ensures Fold(sha, leaves[m], AuditPath(sha, leaves, m), TreeSides(m, |leaves|)) == Root(sha, leaves)
    decreases |leaves|
  {
    hide Fold, Split;
    var n := |leaves|;
    if n == 1 {
      FoldNil(sha, leaves[0]);
    } else {
      var k := Split(n);
      var l, r := leaves[..k], leaves[k..];
      if m < k {
        AuditPathFolds(sha, l, m);
        FoldSnoc(sha, leaves[m], AuditPath(sha, l, m), TreeSides(m, k), Root(sha, r), false);
      } else {
        AuditPathFolds(sha, r, m - k);
        FoldSnoc(sha, leaves[m], AuditPath(sha, r, m - k), TreeSides(m - k, n - k), Root(sha, l), true);
      }
    }
  }

  /** Completeness: the generator fails only out of range, its path has at most ceil(log2 n)
      siblings, and the verifier accepts it against the true root. */
  lemma InclusionComplete(sha: Sha, leaves: seq<Digest>, index: int)
    ensures InclusionProof(sha, leaves, index).Ok? <==> 0 <= index < |leaves|
    ensures 0 <= index < |leaves| ==>
      var path := InclusionProof(sha, leaves, index).value;
      && |path| <= Height(|leaves|)
      && Accepted(sha, leaves[index], index, |leaves|, path, Root(sha, leaves))
  {
    if 0 <= index < |leaves| {
      SidesBounded(index, |leaves|);
      AuditPathFolds(sha, leaves, index);
    }
  }

  /** Soundness at one index: the hash is the leaf and the path is the audit path,
      or an input hashed by the verifier collides with one hashed by the tree. */
  lemma {:induction false} FoldSound(sha: Sha, leaves: seq<Digest>, m: nat, x: Bytes, path: seq<Bytes>)
    requires |x| == 32
    requires m < |leaves| && |path| == |TreeSides(m, |leaves|)|
    requires Fold(sha, x, path, TreeSides(m, |leaves|)) == Root(sha, leaves)
    ensures (x == leaves[m] && path == AuditPath(sha, leaves, m))
         || Collides(sha, FoldInputs(sha, x, path, TreeSides(m, |leaves|)), RootInputs(sha, leaves))
    decreases |leaves|
  {
    hide Split, Fold, FoldInputs, Root, RootInputs;
    var n := |leaves|;
    var sides := TreeSides(m, n);
    if n == 1 {
      FoldNil(sha, x);
      RootOfOne(sha, leaves);
    } else {
      var k := Split(n);
      var l, r := leaves[..k], leaves[k..];
      var top := |path| - 1;
      assert path == path[..top] + [path[top]];
      RootSplits(sha, leaves);
      TopStep(sha, x, path, sides, Root(sha, l), Root(sha, r));
      if m < k {
        assert sides[..top] == TreeSides(m, k);
        if Fold(sha, x, path[..top], sides[..top]) == Root(sha, l) {
          FoldSound(sha, l, m, x, path[..top]);
        }
      } else {
        assert sides[..top] == TreeSides(m - k, n - k);
        if Fold(sha, x, path[..top], sides[..top]) == Root(sha, r) {
          FoldSound(sha, r, m - k, x, path[..top]);
        }
      }
    }
  }

  lemma RootOfOne(sha: Sha, leaves: seq<Digest>)
    requires |leaves| == 1
    ensures Root(sha, leaves) == leaves[0]
  {
  }

  /** Soundness: an accepted leaf hash of 32 bytes is leaf i, with the path the generator makes, or
      inputs collide. Its length is all the caller has to check: the siblings may be any bytes. */
  lemma InclusionSound(sha: Sha, leaves: seq<Digest>, index: int, leaf: Bytes, path: seq<Bytes>)
    requires Accepted(sha, leaf, index, |leaves|, path, Root(sha, leaves))
    ensures (leaf == leaves[index] && InclusionProof(sha, leaves, index) == Ok(path) <==> |leaf| == 32)
         || Collides(sha, FoldInputs(sha, leaf, path, TreeSides(index, |leaves|)), RootInputs(sha, leaves))
  {
    if |leaf| == 32 {
      FoldSound(sha, leaves, index, leaf, path);
    }
  }

  /** The length does matter: two joined leaf hashes, cut anywhere, pass as a leaf and its sibling. */
  lemma CutElsewhereAccepted(sha: Sha, l: Digest, r: Digest, cut: nat)
    requires cut <= 64
    ensures Accepted(sha, (l + r)[..cut], 0, 2, [(l + r)[cut..]], Root(sha, [l, r]))
  {
    var x, c := (l + r)[..cut], (l + r)[cut..];
    SplitOfTwo();
    assert [l, r][..1] == [l] && [l, r][1..] == [r];
    FoldNil(sha, x);
    FoldSnoc(sha, x, [], [], c, false);
    assert TreeSides(0, 2) == TreeSides(0, 1) + [false];
    assert NodeInput(x, c) == [1] + (x + c) && x + c == l + r && NodeInput(l, r) == [1] + (l + r);
  }

  lemma SplitOfTwo()
    ensures Split(2) == 1
  {
    SplitExponentUnique(2, 0, SplitExponent(2));
  }

  /** Down to the logged bytes: an accepted record is the one appended at that index. */
  lemma RecordSound(sha: Sha, records: seq<Bytes>, leaves: seq<Digest>, index: int, data: Bytes, path: seq<Bytes>)
    requires |leaves| == |records|
    requires forall i :: 0 <= i < |records| ==> leaves[i] == LeafHash(sha, records[i])
    requires Accepted(sha, LeafHash(sha, data), index, |leaves|, path, Root(sha, leaves))
    ensures data == records[index]
         || Collides(sha, {LeafInput(data)}, {LeafInput(records[index])})
         || Collides(sha, FoldInputs(sha, LeafHash(sha, data), path, TreeSides(index, |leaves|)),
           RootInputs(sha, leaves))
  {
    InclusionSound(sha, leaves, index, LeafHash(sha, data), path);
    if data != records[index] {
      assert LeafInput(data)[1..] == data && LeafInput(records[index])[1..] == records[index];
    }
  }
}
