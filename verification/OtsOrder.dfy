/**
  Serialisation order (src/phala/anchor.ts:351-403): the compare functions, as signs of a
  difference.
 */
module OtsOrder {
  import opened Basics
  import opened OtsWire

  /** Lexicographic; a proper prefix comes first. Covers both byte strings and UTF-16 strings. */
  function CompareSeq(a: seq<nat>, b: seq<nat>): int {
    if a == [] || b == [] then |a| - |b|
    else if a[0] != b[0] then a[0] - b[0]
    else CompareSeq(a[1..], b[1..])
  }

  /** The loop of `compareBytes`. */
  method CompareBytes(a: Bytes, b: Bytes) returns (c: int)
    ensures c == CompareSeq(a, b)
  {
    var shared := if |a| < |b| then |a| else |b|;
    for i := 0 to shared
      invariant CompareSeq(a, b) == CompareSeq(a[i..], b[i..])
    {
      if a[i] != b[i] {
        var x: int, y: int := a[i], b[i];
        return x - y;
      }
      assert a[i..][1..] == a[i + 1..] && b[i..][1..] == b[i + 1..];
    }
    return |a| - |b|;
  }

  function CompareAttestations(a: Attestation, b: Attestation): int {
    match (a, b)
    case (Pending(u), Pending(v)) => CompareSeq(u, v)
    case (Bitcoin(g), Bitcoin(h)) => g - h
    case (Litecoin(g), Litecoin(h)) => g - h
    case (Ethereum(g), Ethereum(h)) => g - h
    case (Unknown(s, p), Unknown(t, q)) => if CompareSeq(s, t) != 0 then CompareSeq(s, t) else CompareSeq(p, q)
    case _ => CompareSeq(Tag(a), Tag(b))
  }

  lemma {:induction false} CompareSeqEqual(a: seq<nat>, b: seq<nat>)
    ensures CompareSeq(a, b) == 0 <==> a == b
  {
    if a != [] && b != [] && a[0] == b[0] {
      CompareSeqEqual(a[1..], b[1..]);
      assert a == [a[0]] + a[1..] && b == [b[0]] + b[1..];
    }
  }

  lemma {:induction false} CompareSeqFlips(a: seq<nat>, b: seq<nat>)
    ensures CompareSeq(a, b) == -CompareSeq(b, a)
  {
    if a != [] && b != [] && a[0] == b[0] {
      CompareSeqFlips(a[1..], b[1..]);
    }
  }

  lemma {:induction false} CompareSeqTransitive(a: seq<nat>, b: seq<nat>, c: seq<nat>)
    requires CompareSeq(a, b) <= 0 && CompareSeq(b, c) <= 0
    ensures CompareSeq(a, c) <= 0
  {
    if a != [] && b != [] && c != [] && a[0] == b[0] == c[0] {
      CompareSeqTransitive(a[1..], b[1..], c[1..]);
    }
  }

  /** An attestation whose bytes on the wire determine its kind. */
  predicate TagFits(a: Attestation) {
    a.Unknown? ==> a.tag != TAG_PENDING && a.tag != TAG_BITCOIN && a.tag != TAG_LITECOIN && a.tag != TAG_ETHEREUM
  }

  /** The attestation order is antisymmetric and separates different attestations. */
  lemma AttestationOrder(a: Attestation, b: Attestation)
    requires TagFits(a) && TagFits(b)
    ensures CompareAttestations(a, b) == -CompareAttestations(b, a)
    ensures CompareAttestations(a, b) == 0 <==> a == b
  {
    hide CompareSeq;
    CompareSeqFlips(Tag(a), Tag(b));
    CompareSeqEqual(Tag(a), Tag(b));
    if a.Pending? && b.Pending? {
      CompareSeqFlips(a.uri, b.uri);
      CompareSeqEqual(a.uri, b.uri);
    } else if a.Unknown? && b.Unknown? {
      CompareSeqFlips(a.payload, b.payload);
      CompareSeqEqual(a.payload, b.payload);
    }
  }

  lemma AttestationOrderTransitive(a: Attestation, b: Attestation, c: Attestation)
    requires TagFits(a) && TagFits(b) && TagFits(c)
    requires CompareAttestations(a, b) <= 0 && CompareAttestations(b, c) <= 0
    ensures CompareAttestations(a, c) <= 0
  {
    hide CompareSeq;
    CompareAsPair(a, b);
    CompareAsPair(b, c);
    CompareAsPair(a, c);
    CompareSeqEqual(Tag(a), Tag(b));
    CompareSeqEqual(Tag(b), Tag(c));
    CompareSeqFlips(Tag(a), Tag(c));
    CompareSeqFlips(Tag(b), Tag(c));
    CompareSeqFlips(Tag(a), Tag(b));
    CompareSeqEqual(Tag(a), Tag(c));
    CompareSeqTransitive(Tag(a), Tag(b), Tag(c));
    if CompareSeq(Tag(a), Tag(b)) == 0 && CompareSeq(Tag(b), Tag(c)) == 0 {
      CompareSeqTransitive(Detail(a), Detail(b), Detail(c));
    }
  }

  /** What is compared within one kind, as a sequence. */
  function Detail(a: Attestation): seq<nat> {
    match a
    case Pending(uri) => uri
    case Unknown(_, payload) => payload
    case _ => [a.height]
  }

  /** Attestations compare by tag, then by detail. */
  lemma CompareAsPair(a: Attestation, b: Attestation)
    requires TagFits(a) && TagFits(b)
    ensures var t := CompareSeq(Tag(a), Tag(b));
      CompareAttestations(a, b) <= 0 <==> t < 0 || (t == 0 && CompareSeq(Detail(a), Detail(b)) <= 0)
  {
    hide CompareSeq;
    CompareSeqEqual(Tag(a), Tag(b));
    if !a.Pending? && !a.Unknown? && !b.Pending? && !b.Unknown? {
      CompareSingle(a.height, b.height);
    }
  }

  lemma CompareSingle(x: nat, y: nat)
    ensures CompareSeq([x], [y]) == x - y
  {
  }
}
