/** The in-memory log (src/log-memory.ts): two parallel arrays grown by `append`. */
module LogMemory {
  import opened Basics
  import opened Merkle
  import opened Consistency
  import Inclusion
  import opened TreeHead

  class MemoryLog {
    const sha: Sha
    const logId: string
    const sign: Sign
    var leaves: seq<Bytes>
    var leafHashes: seq<Digest>

    ghost predicate Valid()
      reads this
    {
      && |leafHashes| == |leaves|
      && forall i :: 0 <= i < |leaves| ==> leafHashes[i] == LeafHash(sha, leaves[i])
    }

    constructor (sha: Sha, logId: string, sign: Sign)
      ensures Valid() && this.sha == sha && this.logId == logId && this.sign == sign && leaves == []
    {
      this.sha := sha;
      this.logId := logId;
      this.sign := sign;
      leaves := [];
      leafHashes := [];
    }

    method Append(data: Bytes) returns (leafIndex: nat, treeSize: nat)
      requires Valid()
      modifies this
      ensures Valid() && leaves == old(leaves) + [data]
      ensures leafIndex == |old(leaves)| && leaves[leafIndex] == data && treeSize == |leaves|
    {
      leafIndex := |leaves|;
      leaves := leaves + [data];
      leafHashes := leafHashes + [LeafHash(sha, data)];
      treeSize := |leaves|;
    }

    /** An accepted path for the record at that index; and, unless hash inputs collide, a path
        accepted there for any other record does not exist. */
    method InclusionAuditPath(leafIndex: int) returns (path: Result<seq<Digest>, ProofError>)
      requires Valid()
      ensures path.Ok? <==> 0 <= leafIndex < |leaves|
      ensures path.Ok? ==>
        Inclusion.Accepted(sha, LeafHash(sha, leaves[leafIndex]), leafIndex, |leaves|, path.value,
          Root(sha, leafHashes))
      ensures forall data, p ::
        Inclusion.Accepted(sha, LeafHash(sha, data), leafIndex, |leaves|, p, Root(sha, leafHashes)) ==>
          LoggedAt(sha, leaves, leafHashes, leafIndex, data, p)
    {
      hide Root, LeafHash, LoggedAt;
      path := InclusionProof(sha, leafHashes, leafIndex);
      Inclusion.InclusionComplete(sha, leafHashes, leafIndex);
      forall data, p | Inclusion.Accepted(sha, LeafHash(sha, data), leafIndex, |leaves|, p, Root(sha, leafHashes))
        ensures LoggedAt(sha, leaves, leafHashes, leafIndex, data, p)
      {
        AcceptedIsLogged(sha, leaves, leafHashes, leafIndex, data, p);
      }
    }

    /** The head commits to exactly the records appended: each has an accepted path under it, and
        unless hash inputs collide no other record has one at any index. */
    method BuildSTH(timestamp: string) returns (sth: Sth, ghost head: Head)
      requires Valid()
      ensures HeadOf(sth) == Some(head) && head == Head(|leaves|, Root(sha, leafHashes))
      ensures sth.core.logId == logId && sth.core.timestamp == timestamp && sth.signature == sign(sth.core)
      ensures forall w :: w in sth.witnesses ==> !w.external && w.signature == sth.signature
      ensures forall i :: 0 <= i < head.size ==> Provable(sha, head, i, leaves[i])
      ensures forall i, data, p ::
        Inclusion.Accepted(sha, LeafHash(sha, data), i, head.size, p, head.root) ==>
          LoggedAt(sha, leaves, leafHashes, i, data, p)
    {
      hide Root, LeafHash, LoggedAt, HeadOf;
      head := Head(|leaves|, Root(sha, leafHashes));
      sth := SignHead(sign, logId, Head(|leaves|, Root(sha, leafHashes)), timestamp);
      SignedHeadReads(sign, logId, head, timestamp);
      forall i | 0 <= i < head.size
        ensures Provable(sha, head, i, leaves[i])
      {
        Inclusion.InclusionComplete(sha, leafHashes, i);
        var path := InclusionProof(sha, leafHashes, i);
        assert Inclusion.Accepted(sha, LeafHash(sha, leaves[i]), i, head.size, path.value, head.root);
      }
      forall i, data, p | Inclusion.Accepted(sha, LeafHash(sha, data), i, head.size, p, head.root)
        ensures LoggedAt(sha, leaves, leafHashes, i, data, p)
      {
        AcceptedIsLogged(sha, leaves, leafHashes, i, data, p);
      }
    }
  }

  ghost predicate Provable(sha: Sha, head: Head, i: int, data: Bytes) {
    exists p :: Inclusion.Accepted(sha, LeafHash(sha, data), i, head.size, p, head.root)
  }

  /** The record is the one logged at i, or its path betrays a collision with the log's own inputs. */
  ghost predicate LoggedAt(sha: Sha, records: seq<Bytes>, hashes: seq<Digest>, i: int, data: Bytes, p: seq<Bytes>) {
    && 0 <= i < |records| && |p| == |TreeSides(i, |records|)|
    && (|| data == records[i]
        || Collides(sha, {LeafInput(data)}, {LeafInput(records[i])})
        || Collides(sha, FoldInputs(sha, LeafHash(sha, data), p, TreeSides(i, |records|)), RootInputs(sha, hashes)))
  }

  lemma AcceptedIsLogged(sha: Sha, records: seq<Bytes>, hashes: seq<Digest>, i: int, data: Bytes, p: seq<Bytes>)
    requires |hashes| == |records| && forall k :: 0 <= k < |records| ==> hashes[k] == LeafHash(sha, records[k])
    requires Inclusion.Accepted(sha, LeafHash(sha, data), i, |records|, p, Root(sha, hashes))
    ensures LoggedAt(sha, records, hashes, i, data, p)
  {
    hide Root, RootInputs, FoldInputs, TreeSides, LeafHash, LeafInput;
    Inclusion.RecordSound(sha, records, hashes, i, data, p);
  }
}
