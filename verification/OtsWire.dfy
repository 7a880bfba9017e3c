/**
  The wire primitives of OpenTimestamps proofs (src/phala/anchor.ts:38-243): variable-length
  integers and byte strings, attestations, and the reader and writer objects.
 */
module OtsWire {
  import opened Basics

  /** A JavaScript string: UTF-16 code units. */
  type Text = seq<nat>

  /** Library functions of the format: the hash operations, and UTF-8. */
  datatype Env = Env(
    sha256: Bytes -> Bytes, sha1: Bytes -> Bytes, ripemd160: Bytes -> Bytes, keccak256: Bytes -> Bytes,
    encode: Text -> Bytes, decode: Bytes -> Text)

  datatype Error =
    | EndsMidStructure | EndsMidValue | VarUintTooLarge | UnknownOperation
    | BadMagic | BadVersion | SaysNothing | DifferentMessages

  /** A parser consumes a prefix of its input and returns the rest. */
  datatype Parsed<+T> = Got(value: T, rest: Bytes) | Failed(error: Error)

  const MAX_SAFE: nat := 0x20_0000_0000_0000

  // ---------------------------------------------------------------- integers and byte strings

  /** Base 128, least significant group first, high bit set on all but the last. */
  function VarUint(n: nat): (b: Bytes)
    ensures b != []
  {
    if n < 128 then [n] else [n % 128 + 128] + VarUint(n / 128)
  }

  /** The reader accepts at most nine groups. */
  function ReadVarUint(input: Bytes, group: nat := 0): (p: Parsed<nat>)
    ensures p.Got? ==> |p.rest| < |input|
    decreases |input|
  {
    if input == [] then Failed(EndsMidStructure)
    else if input[0] < 128 then Got(input[0], input[1..])
    else if group >= 8 then Failed(VarUintTooLarge)
    else
      match ReadVarUint(input[1..], group + 1)
      case Failed(e) => Failed(e)
      case Got(v, rest) => Got(input[0] % 128 + 128 * v, rest)
  }

  function Capacity(groups: nat): (c: nat)
    ensures c > 0
  {
    if groups == 0 then 1 else 128 * Capacity(groups - 1)
  }

  lemma {:induction false} VarUintReadsFrom(n: nat, rest: Bytes, group: nat)
    requires group <= 8 && n < Capacity(9 - group)
    ensures ReadVarUint(VarUint(n) + rest, group) == Got(n, rest)
    decreases n
  {
    var input := VarUint(n) + rest;
    if n < 128 {
      assert input[1..] == rest;
    } else {
      assert Capacity(9 - group) == 128 * Capacity(8 - group);
      VarUintReadsFrom(n / 128, rest, group + 1);
      assert input[1..] == VarUint(n / 128) + rest;
    }
  }

  lemma VarUintReads(n: nat, rest: Bytes)
    requires n <= MAX_SAFE + 16
    ensures ReadVarUint(VarUint(n) + rest) == Got(n, rest)
  {
    assert Capacity(9) == 128 * 128 * 128 * 128 * 128 * 128 * 128 * 128 * 128;
    VarUintReadsFrom(n, rest, 0);
  }

  function Take(input: Bytes, n: nat): Parsed<Bytes> {
    if n > |input| then Failed(EndsMidValue) else Got(input[..n], input[n..])
  }

  lemma TakeReads(b: Bytes, rest: Bytes)
    ensures Take(b + rest, |b|) == Got(b, rest)
  {
    assert (b + rest)[..|b|] == b && (b + rest)[|b|..] == rest;
  }

  function VarBytes(b: Bytes): (r: Bytes)
    ensures r != []
  {
    VarUint(|b|) + b
  }

  function ReadVarBytes(input: Bytes): (p: Parsed<Bytes>)
    ensures p.Got? ==> |p.rest| < |input|
  {
    match ReadVarUint(input)
    case Failed(e) => Failed(e)
    case Got(n, rest) => Take(rest, n)
  }

  lemma VarBytesReads(b: Bytes, rest: Bytes)
    requires |b| <= MAX_SAFE + 16
    ensures ReadVarBytes(VarBytes(b) + rest) == Got(b, rest)
  {
    hide VarUint, ReadVarUint;
    assert VarBytes(b) + rest == VarUint(|b|) + (b + rest);
    VarUintReads(|b|, b + rest);
    TakeReads(b, rest);
  }

  lemma {:induction false} VarUintLength(n: nat, groups: nat)
    requires n < Capacity(groups) && groups > 0
    ensures |VarUint(n)| <= groups
    decreases n
  {
    if n >= 128 {
      VarUintLength(n / 128, groups - 1);
    }
  }

  // ---------------------------------------------------------------- attestations

  datatype Attestation =
    | Pending(uri: Text)
    | Bitcoin(height: nat)
    | Litecoin(height: nat)
    | Ethereum(height: nat)
    | Unknown(tag: Bytes, payload: Bytes)

  const TAG_PENDING: Bytes := [0x83, 0xdf, 0xe3, 0x0d, 0x2e, 0xf9, 0x0c, 0x8e]
  const TAG_BITCOIN: Bytes := [0x05, 0x88, 0x96, 0x0d, 0x73, 0xd7, 0x19, 0x01]
  const TAG_LITECOIN: Bytes := [0x06, 0x86, 0x9a, 0x0d, 0x73, 0xd7, 0x1b, 0x45]
  const TAG_ETHEREUM: Bytes := [0x30, 0xfe, 0x80, 0x87, 0xb5, 0xc7, 0xea, 0xd7]

  function Tag(a: Attestation): Bytes {
    match a
    case Pending(_) => TAG_PENDING
    case Bitcoin(_) => TAG_BITCOIN
    case Litecoin(_) => TAG_LITECOIN
    case Ethereum(_) => TAG_ETHEREUM
    case Unknown(tag, _) => tag
  }

  function Payload(env: Env, a: Attestation): Bytes {
    match a
    case Pending(uri) => VarBytes(env.encode(uri))
    case Unknown(_, payload) => payload
    case _ => VarUint(a.height)
  }

  function WriteAttestation(env: Env, a: Attestation): Bytes {
    Tag(a) + VarBytes(Payload(env, a))
  }

  /** Decode a payload by its tag; an unknown attestation's payload is not kept. */
  function DecodeAttestation(env: Env, tag: Bytes, payload: Bytes): Result<Attestation, Error> {
    if tag == TAG_PENDING then
      match ReadVarBytes(payload)
      case Failed(e) => Err(e)
      case Got(uri, _) => Ok(Pending(env.decode(uri)))
    else if tag == TAG_BITCOIN || tag == TAG_LITECOIN || tag == TAG_ETHEREUM then
      match ReadVarUint(payload)
      case Failed(e) => Err(e)
      case Got(h, _) =>
        Ok(if tag == TAG_BITCOIN then Bitcoin(h) else if tag == TAG_LITECOIN then Litecoin(h) else Ethereum(h))
    else Ok(Unknown(tag, []))
  }

  function ReadAttestation(env: Env, input: Bytes): (p: Parsed<Attestation>)
    ensures p.Got? ==> |p.rest| < |input|
  {
    match Take(input, 8)
    case Failed(e) => Failed(e)
    case Got(tag, rest) =>
      match ReadVarBytes(rest)
      case Failed(e) => Failed(e)
      case Got(payload, rest') =>
        match DecodeAttestation(env, tag, payload)
        case Err(e) => Failed(e)
        case Ok(a) => Got(a, rest')
  }

  /** The attestations the format keeps: known kinds, safe heights, URIs that survive UTF-8. */
  ghost predicate Faithful(env: Env, a: Attestation) {
    match a
    case Pending(uri) => env.decode(env.encode(uri)) == uri && |env.encode(uri)| < MAX_SAFE
    case Unknown(_, _) => false
    case _ => a.height < MAX_SAFE
  }

  lemma PayloadDecodes(env: Env, a: Attestation)
    requires Faithful(env, a)
    ensures DecodeAttestation(env, Tag(a), Payload(env, a)) == Ok(a) && |Payload(env, a)| <= MAX_SAFE + 16
  {
    hide VarUint, ReadVarUint, VarBytes, ReadVarBytes;
    assert Capacity(9) == 128 * 128 * 128 * 128 * 128 * 128 * 128 * 128 * 128;
    if a.Pending? {
      VarBytesReads(env.encode(a.uri), []);
      assert VarBytes(env.encode(a.uri)) + [] == VarBytes(env.encode(a.uri));
      VarBytesLength(env.encode(a.uri));
    } else {
      VarUintReads(a.height, []);
      assert VarUint(a.height) + [] == VarUint(a.height);
      VarUintLength(a.height, 9);
    }
  }

  lemma VarBytesLength(b: Bytes)
    requires |b| < MAX_SAFE
    ensures |VarBytes(b)| <= |b| + 9
  {
    assert Capacity(9) == 128 * 128 * 128 * 128 * 128 * 128 * 128 * 128 * 128;
    VarUintLength(|b|, 9);
  }

  lemma AttestationReads(env: Env, a: Attestation, rest: Bytes)
    requires Faithful(env, a)
    ensures ReadAttestation(env, WriteAttestation(env, a) + rest) == Got(a, rest)
  {
    hide VarBytes, ReadVarBytes, DecodeAttestation, Payload;
    var payload := Payload(env, a);
    PayloadDecodes(env, a);
    assert WriteAttestation(env, a) + rest == Tag(a) + (VarBytes(payload) + rest);
    TakeReads(Tag(a), VarBytes(payload) + rest);
    VarBytesReads(payload, rest);
  }
}
