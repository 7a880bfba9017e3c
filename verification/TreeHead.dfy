/**
  Signed tree heads as both logs build them (src/log-memory.ts:66-88, src/phala/log-file.ts:120-138):
  the core fields, the log key's signature over them, and the log's own co-signature.
 */
module TreeHead {
  import opened Basics
  import opened Consistency
  import Multihash

  datatype Core = Core(logId: string, treeSize: nat, rootHash: string, timestamp: string)

  datatype Signature = Signature(alg: string, mlDsa: string, ed25519: string)

  datatype Witness = Witness(id: string, external: bool, signature: Signature)

  datatype Sth = Sth(core: Core, signature: Signature, witnesses: seq<Witness>)

  /** Signing the canonical encoding of the core with the log key. */
  type Sign = Core -> Signature

  function SignHead(sign: Sign, logId: string, head: Head, timestamp: string): Sth {
    var core := Core(logId, head.size, Multihash.FromDigest(head.root), timestamp);
    Sth(core, sign(core), [Witness("cool-self", false, sign(core))])
  }

  /** The head a reader gets out of a signed one; None where its root does not decode. */
  function HeadOf(sth: Sth): Option<Head> {
    match Multihash.ToDigest(sth.core.rootHash)
    case None => None
    case Some(root) => Some(Head(sth.core.treeSize, root))
  }

  /** What is signed is the head, read back exactly; the only witness is the log itself, and not external. */
  lemma SignedHeadReads(sign: Sign, logId: string, head: Head, timestamp: string)
    ensures var sth := SignHead(sign, logId, head, timestamp);
      && HeadOf(sth) == Some(head)
      && sth.core.logId == logId && sth.core.timestamp == timestamp && sth.signature == sign(sth.core)
      && forall w :: w in sth.witnesses ==> !w.external && w.signature == sth.signature
  {
    Multihash.RoundTrip(head.root);
  }
}
