/**
  Object identifiers and integers in DER (src/platform/der.ts:93-128, 185-207).
  OIDs are lists of arcs; the dotted spelling is left to the library.
 */
module DerValues {
  import opened Basics
  import opened Der

  datatype ValueError = Empty | NonMinimal | ArcTooLarge | Truncated | Negative | TooLarge

  /** Number.MAX_SAFE_INTEGER / 128, rounded up: the first arc that is refused. */
  const ARC_LIMIT: nat := 0x4000_0000_0000

  // ---------------------------------------------------------------- arcs

  /** All base-128 digits but the last, most significant first, high bits set. */
  function HighDigits(v: nat): Bytes {
    if v == 0 then [] else HighDigits(v / 128) + [v % 128 + 128]
  }

  function WriteArc(arc: nat): (b: Bytes)
    ensures b != []
  {
    HighDigits(arc / 128) + [arc % 128]
  }

  datatype ArcParse = GotArc(arc: nat, rest: Bytes) | BadArc(error: ValueError)

  /** The decoding loop within one arc, v being the digits so far. */
  function ReadArc(v: nat, b: Bytes): (p: ArcParse)
    requires b != []
    ensures p.GotArc? ==> |p.rest| < |b|
    decreases |b|
  {
    if v == 0 && b[0] == 0x80 then BadArc(NonMinimal)
    else
      var w := v * 128 + b[0] % 128;
      if w >= ARC_LIMIT then BadArc(ArcTooLarge)
      else if b[0] < 128 then GotArc(w, b[1..])
      else if |b| == 1 then BadArc(Truncated)
      else ReadArc(w, b[1..])
  }

  lemma {:induction false} HighDigitsRead(v: nat, tail: Bytes)
    requires 0 < v < ARC_LIMIT && tail != []
    ensures ReadArc(0, HighDigits(v) + tail) == ReadArc(v, tail)
    decreases v
  {
    var digit := v % 128 + 128;
    var mid := [digit] + tail;
    assert HighDigits(v) + tail == HighDigits(v / 128) + mid;
    assert mid[1..] == tail;
    if v / 128 > 0 {
      HighDigitsRead(v / 128, mid);
    } else {
      assert [] + mid == mid;
    }
  }

  lemma ArcReads(arc: nat, rest: Bytes)
    requires arc < ARC_LIMIT
    ensures ReadArc(0, WriteArc(arc) + rest) == GotArc(arc, rest)
  {
    var tail := [arc % 128] + rest;
    assert WriteArc(arc) + rest == HighDigits(arc / 128) + tail;
    assert tail[1..] == rest;
    if arc / 128 > 0 {
      HighDigitsRead(arc / 128, tail);
    } else {
      assert [] + tail == tail;
    }
  }

  lemma {:induction false} ArcWrites(v: nat, b: Bytes)
    requires b != [] && ReadArc(v, b).GotArc?
    ensures var p := ReadArc(v, b); p.arc < ARC_LIMIT && HighDigits(v) + b == WriteArc(p.arc) + p.rest
    decreases |b|
  {
    var p := ReadArc(v, b);
    var w := v * 128 + b[0] % 128;
    assert w / 128 == v && w % 128 == b[0] % 128;
    assert b == [b[0]] + b[1..];
    if b[0] >= 128 {
      ArcWrites(w, b[1..]);
      assert HighDigits(w) == HighDigits(v) + [b[0]];
      assert HighDigits(v) + b == HighDigits(w) + b[1..];
    }
  }

  function ReadArcs(b: Bytes): (r: Result<seq<nat>, ValueError>)
    ensures b != [] && r.Ok? ==> r.value != []
    decreases |b|
  {
    if b == [] then Ok([])
    else
      match ReadArc(0, b)
      case BadArc(e) => Err(e)
      case GotArc(arc, rest) =>
        match ReadArcs(rest)
        case Err(e) => Err(e)
        case Ok(arcs) => Ok([arc] + arcs)
  }

  function WriteArcs(arcs: seq<nat>): Bytes {
    if arcs == [] then [] else WriteArc(arcs[0]) + WriteArcs(arcs[1..])
  }

  predicate InRange(arcs: seq<nat>) {
    forall i :: 0 <= i < |arcs| ==> arcs[i] < ARC_LIMIT
  }

  lemma {:induction false} ArcsRead(arcs: seq<nat>)
    requires InRange(arcs)
    ensures ReadArcs(WriteArcs(arcs)) == Ok(arcs)
    decreases |arcs|
  {
    hide ReadArc, WriteArc;
    if arcs != [] {
      ArcReads(arcs[0], WriteArcs(arcs[1..]));
      assert InRange(arcs[1..]) by { assert forall i :: 0 <= i < |arcs[1..]| ==> arcs[1..][i] == arcs[i + 1]; }
      ArcsRead(arcs[1..]);
      assert arcs == [arcs[0]] + arcs[1..];
    }
  }

  lemma {:induction false} ArcsWrite(b: Bytes)
    requires ReadArcs(b).Ok?
    ensures InRange(ReadArcs(b).value) && WriteArcs(ReadArcs(b).value) == b
    decreases |b|
  {
    hide ReadArc, WriteArc;
    if b != [] {
      ArcWrites(0, b);
      var p := ReadArc(0, b);
      assert HighDigits(0) + b == b;
      ArcsWrite(p.rest);
      var arcs := ReadArcs(b).value;
      assert arcs[1..] == ReadArcs(p.rest).value;
    }
  }

  // ---------------------------------------------------------------- object identifiers

  /** The first number on the wire carries the first two arcs. */
  function Unpack(v: nat): (nat, nat) {
    if v < 80 then (v / 40, v % 40) else (2, v - 80)
  }

  function DecodeOid(content: Bytes): Result<seq<nat>, ValueError> {
    if content == [] then Err(Empty)
    else
      match ReadArcs(content)
      case Err(e) => Err(e)
      case Ok(numbers) =>
        var (a, b) := Unpack(numbers[0]);
        Ok([a, b] + numbers[1..])
  }

  /** The writer puts the packed first number into one byte, modulo 256. */
  function EncodeOid(arcs: seq<nat>): Bytes
    requires |arcs| >= 2
  {
    [(40 * arcs[0] + arcs[1]) % 256] + WriteArcs(arcs[2..])
  }

  /** Arcs an OID can have, in the range the reader accepts. */
  predicate ValidOid(arcs: seq<nat>) {
    && |arcs| >= 2 && InRange(arcs) && arcs[0] <= 2 && (arcs[0] < 2 ==> arcs[1] < 40)
    && 40 * arcs[0] + arcs[1] < ARC_LIMIT
  }

  lemma {:induction false} CountArcs(b: Bytes)
    requires ReadArcs(b).Ok?
    ensures |ReadArcs(b).value| == Terminators(b)
    decreases |b|
  {
    hide ReadArc;
    if b != [] {
      CountArc(0, b);
      CountArcs(ReadArc(0, b).rest);
    }
  }

  lemma {:induction false} CountArc(v: nat, b: Bytes)
    requires b != [] && ReadArc(v, b).GotArc?
    ensures Terminators(b) == 1 + Terminators(ReadArc(v, b).rest)
    decreases |b|
  {
    if b[0] >= 128 {
      CountArc(v * 128 + b[0] % 128, b[1..]);
    }
  }

  /** Bytes without the high bit: each ends a number. */
  function Terminators(b: Bytes): nat {
    if b == [] then 0 else (if b[0] < 128 then 1 else 0) + Terminators(b[1..])
  }

  /** The round trip holds exactly when the packed first number fits in seven bits; the code
      does not split a larger one, so for instance 2.999 does not survive. */
  lemma OidRoundTrip(arcs: seq<nat>)
    requires ValidOid(arcs)
    ensures DecodeOid(EncodeOid(arcs)) == Ok(arcs) <==> 40 * arcs[0] + arcs[1] < 128
  {
    hide ReadArcs, WriteArcs, Terminators;
    var packed := 40 * arcs[0] + arcs[1];
    var rest := arcs[2..];
    assert InRange(rest) by { assert forall i :: 0 <= i < |rest| ==> rest[i] == arcs[i + 2]; }
    assert arcs == [arcs[0], arcs[1]] + rest;
    if packed < 128 {
      SmallFirst(packed, rest);
      ArcsRead([packed] + rest);
    } else {
      var b := EncodeOid(arcs);
      if packed % 256 < 128 {
        SmallFirst(packed % 256, rest);
        ArcsRead([packed % 256] + rest);
        var first := Unpack(packed % 256);
        assert 40 * first.0 + first.1 == packed % 256 < packed;
        assert DecodeOid(b).value[0] == first.0 && DecodeOid(b).value[1] == first.1;
      } else if ReadArcs(b).Ok? {
        ArcsRead(rest);
        CountArcs(b);
        CountArcs(WriteArcs(rest));
        ContinuedFirst(packed % 256, WriteArcs(rest));
        assert |DecodeOid(b).value| == |rest| + 1;
      }
    }
  }

  lemma SmallFirst(v: nat, rest: seq<nat>)
    requires v < 128
    ensures WriteArcs([v] + rest) == [v] + WriteArcs(rest)
  {
    assert ([v] + rest)[1..] == rest;
    assert WriteArc(v) == [v];
  }

  lemma ContinuedFirst(first: byte, rest: Bytes)
    requires first >= 128
    ensures Terminators([first] + rest) == Terminators(rest)
  {
    assert ([first] + rest)[1..] == rest;
  }

  /** Conversely, accepted content is what the writer writes exactly if its first number is one byte. */
  lemma OidReencodes(content: Bytes)
    requires DecodeOid(content).Ok?
    ensures var arcs := DecodeOid(content).value; ValidOid(arcs) && (EncodeOid(arcs) == content <==> content[0] < 128)
  {
    hide WriteArcs;
    var numbers, arcs := ReadArcs(content).value, DecodeOid(content).value;
    ArcsWrite(content);
    assert numbers == [numbers[0]] + numbers[1..];
    assert arcs[2..] == numbers[1..];
    assert forall i :: 2 <= i < |arcs| ==> arcs[i] == numbers[i - 1];
    if content[0] < 128 {
      assert numbers[0] == content[0];
      SmallFirst(numbers[0], numbers[1..]);
    } else {
      var rest, first := arcs[2..], EncodeOid(arcs)[0];
      ArcsRead(rest);
      CountArcs(content);
      CountArcs(WriteArcs(rest));
      if first >= 128 {
        ContinuedFirst(first, WriteArcs(rest));
        assert Terminators(EncodeOid(arcs)) == |rest| < Terminators(content);
      }
    }
  }

  // ---------------------------------------------------------------- integers

  /** Content octets of a non-negative INTEGER: minimal, with a zero octet before a high bit. */
  function WriteInteger(v: nat): Bytes {
    var bytes := if v == 0 then [0] else ToBigEndian(v);
    if bytes[0] >= 128 then [0] + bytes else bytes
  }

  /** Octets without the sign octet. */
  function IntegerBytes(content: Bytes): Result<Bytes, ValueError> {
    if content == [] then Err(Empty)
    else if |content| > 1 &&
      ((content[0] == 0 && content[1] < 128) || (content[0] == 0xff && content[1] >= 128)) then Err(NonMinimal)
    else Ok(if content[0] == 0 && |content| > 1 then content[1..] else content)
  }

  function IntegerValue(content: Bytes): Result<nat, ValueError> {
    match IntegerBytes(content)
    case Err(e) => Err(e)
    case Ok(b) =>
      if content[0] >= 128 then Err(Negative)
      else if |b| > 6 then Err(TooLarge)
      else Ok(FromBigEndian(b))
  }

  const INTEGER_LIMIT: nat := 0x1_0000_0000_0000

  lemma Pow256Of6()
    ensures Pow256(6) == INTEGER_LIMIT
  {
    assert Pow256(3) == 0x100_0000;
    assert Pow256(6) == 256 * 256 * 256 * Pow256(3);
  }

  /** Integers are a bijection on 0 <= v < 2^48: content is read as v exactly when it is what the
      writer writes for v and v is in range. */
  lemma IntegerIsInverse(content: Bytes, v: nat)
    ensures IntegerValue(content) == Ok(v) <==> v < INTEGER_LIMIT && content == WriteInteger(v)
  {
    hide ToBigEndian, FromBigEndian;
    Pow256Of6();
    FromBigEndianOne(0);
    if IntegerValue(content) == Ok(v) {
      var b := IntegerBytes(content).value;
      if b[0] == 0 {
        assert content == b == [0];
      } else {
        BigEndianWrites(b);
        BigEndianLength(v, 6);
        if content != b {
          assert content == [0] + b;
        }
      }
    }
    if v < INTEGER_LIMIT && content == WriteInteger(v) && v > 0 {
      BigEndianReads(v);
      BigEndianLength(v, 6);
      var b := ToBigEndian(v);
      if b[0] >= 128 {
        assert content[1..] == b;
      }
    }
  }

  lemma FromBigEndianOne(x: byte)
    ensures FromBigEndian([x]) == x
  {
    assert [x][..0] == [];
  }

  // ---------------------------------------------------------------- the loops

  /** Arcs of the numbers read so far. */
  function ArcsOf(numbers: seq<nat>): seq<nat> {
    if numbers == [] then [] else [Unpack(numbers[0]).0, Unpack(numbers[0]).1] + numbers[1..]
  }

  /** Reading on from inside a number, v being its digits so far. */
  ghost function ReadOn(numbers: seq<nat>, v: nat, b: Bytes): Result<seq<nat>, ValueError>
    requires b != []
  {
    match ReadArc(v, b)
    case BadArc(e) => Err(e)
    case GotArc(arc, rest) =>
      match ReadArcs(rest)
      case Err(e) => Err(e)
      case Ok(more) => Ok(numbers + [arc] + more)
  }

  lemma ReadOnStart(numbers: seq<nat>, b: Bytes)
    requires b != []
    ensures ReadOn(numbers, 0, b) == match ReadArcs(b) case Err(e) => Err(e) case Ok(more) => Ok(numbers + more)
  {
    hide ReadArc;
    match ReadArc(0, b) {
      case GotArc(arc, rest) =>
        if ReadArcs(rest).Ok? {
          assert numbers + [arc] + ReadArcs(rest).value == numbers + ([arc] + ReadArcs(rest).value);
        }
      case BadArc(_) =>
    }
  }

  /** One octet of the pass. */
  lemma ReadOnStep(numbers: seq<nat>, v: nat, b: Bytes)
    requires b != []
    ensures var v' := v * 128 + b[0] % 128;
      ReadOn(numbers, v, b)
      == if v == 0 && b[0] == 0x80 then Err(NonMinimal)
         else if v' >= ARC_LIMIT then Err(ArcTooLarge)
         else if b[0] >= 128 then (if |b| == 1 then Err(Truncated) else ReadOn(numbers, v', b[1..]))
         else if |b| == 1 then Ok(numbers + [v'])
         else ReadOn(numbers + [v'], 0, b[1..])
  {
    hide ReadArcs;
    NothingLeft();
    if b[0] < 128 && |b| > 1 {
      ReadOnStart(numbers + [v * 128 + b[0] % 128], b[1..]);
    } else if b[0] < 128 {
      assert b[1..] == [] && numbers + [v * 128 + b[0] % 128] + [] == numbers + [v * 128 + b[0] % 128];
    }
  }

  lemma ArcsSnoc(numbers: seq<nat>, v: nat)
    ensures ArcsOf(numbers + [v]) == if numbers == [] then [Unpack(v).0, Unpack(v).1] else ArcsOf(numbers) + [v]
    ensures ArcsOf(numbers) == [] <==> numbers == []
  {
  }

  lemma MeansStart(content: Bytes)
    requires content != []
    ensures MeansOid(content, ReadOn([], 0, content))
  {
    hide ReadArcs, ReadOn;
    ReadOnStart([], content);
    assert ReadArcs(content).Ok? ==> [] + ReadArcs(content).value == ReadArcs(content).value;
  }

  /** decodeOid: one pass over the octets; the first number becomes the first two arcs. */
  method DecodeOidContent(content: Bytes) returns (r: Result<seq<nat>, ValueError>)
    ensures r == DecodeOid(content)
  {
    hide ReadArcs, ReadOn, ArcsOf, Unpack;
    if |content| == 0 {
      return Err(Empty);
    }
    var arcs: seq<nat> := [];
    var v: nat := 0;
    ghost var numbers: seq<nat> := [];
    MeansStart(content);
    ArcsSnoc([], 0);
    assert content[0..] == content;
    for i := 0 to |content|
      invariant arcs == ArcsOf(numbers)
      invariant i < |content| ==> MeansOid(content, ReadOn(numbers, v, content[i..]))
      invariant i == |content| ==> MeansOid(content, Ok(numbers))
    {
      var b := content[i];
      assert content[i..][1..] == content[i + 1..];
      ReadOnStep(numbers, v, content[i..]);
      if v == 0 && b == 0x80 {
        return Err(NonMinimal);
      }
      v := v * 128 + b % 128;
      if v >= ARC_LIMIT {
        return Err(ArcTooLarge);
      }
      if b < 128 {
        ArcsSnoc(numbers, v);
        arcs := if |arcs| == 0 then [Unpack(v).0, Unpack(v).1] else arcs + [v];
        numbers := numbers + [v];
        v := 0;
      } else if i == |content| - 1 {
        return Err(Truncated);
      }
    }
    return Ok(arcs);
  }

  lemma NothingLeft()
    ensures ReadArcs([]) == Ok([])
  {
  }

  /** What the numbers of a non-empty content say about its OID. */
  ghost predicate MeansOid(content: Bytes, r: Result<seq<nat>, ValueError>)
  {
    match r
    case Err(e) => DecodeOid(content) == Err(e)
    case Ok(numbers) => DecodeOid(content) == Ok(ArcsOf(numbers))
  }

  /** The digits of one arc in derOid, put in front one by one. */
  method BuildArc(arc: nat) returns (chunk: Bytes)
    ensures chunk == WriteArc(arc)
  {
    chunk := [arc % 128];
    var v: nat := arc / 128;
    while v > 0
      invariant WriteArc(arc) == HighDigits(v) + chunk
    {
      assert HighDigits(v) + chunk == HighDigits(v / 128) + ([v % 128 + 128] + chunk);
      chunk := [v % 128 + 128] + chunk;
      v := v / 128;
    }
  }

  /** derInteger of a number. */
  method BuildInteger(n: nat) returns (content: Bytes)
    ensures content == WriteInteger(n)
  {
    hide StripZeros;
    var a := BuildDigits(n);
    BigEndianReads(n);
    var bytes := if |a| > 0 then a else [0];
    StripNothing(bytes);
    content := BuildIntegerBytes(bytes);
  }

  /** The base-256 digits of a number, put in front one by one. */
  method BuildDigits(n: nat) returns (a: Bytes)
    ensures a == ToBigEndian(n)
  {
    a := [];
    var v: nat := n;
    while v > 0
      invariant ToBigEndian(n) == ToBigEndian(v) + a
    {
      assert ToBigEndian(v) + a == ToBigEndian(v / 256) + ([v % 256] + a);
      a := [v % 256] + a;
      v := v / 256;
    }
  }

  /** derInteger of bytes: leading zeros are skipped, then a sign octet is added where needed. */
  method BuildIntegerBytes(bytes: Bytes) returns (content: Bytes)
    ensures content == WriteIntegerBytes(bytes)
  {
    var i := 0;
    while i < |bytes| - 1 && bytes[i] == 0
      invariant 0 <= i <= |bytes| && (bytes != [] ==> i < |bytes|) && StripZeros(bytes) == StripZeros(bytes[i..])
    {
      assert bytes[i..][1..] == bytes[i + 1..];
      i := i + 1;
    }
    var t := bytes[i..];
    content := if t != [] && t[0] >= 128 then [0] + t else t;
  }

  function StripZeros(b: Bytes): (r: Bytes)
    ensures b != [] ==> r != [] && (r[0] == 0 ==> r == [0])
    ensures b == [] ==> r == []
  {
    if |b| > 1 && b[0] == 0 then StripZeros(b[1..]) else b
  }

  lemma StripNothing(b: Bytes)
    requires b != [] && (b[0] != 0 || b == [0])
    ensures StripZeros(b) == b
  {
  }

  function WriteIntegerBytes(b: Bytes): Bytes {
    var t := StripZeros(b);
    if t != [] && t[0] >= 128 then [0] + t else t
  }

  /** An unsigned magnitude survives, without its leading zeros, exactly if it has a byte at all: of
      no bytes the writer makes an INTEGER that its own reader refuses. */
  lemma IntegerBytesRoundTrip(b: Bytes)
    ensures IntegerBytes(WriteIntegerBytes(b)) == if b == [] then Err(Empty) else Ok(StripZeros(b))
  {
    hide StripZeros;
    var t := StripZeros(b);
    if t != [] && t[0] >= 128 {
      assert ([0] + t)[1..] == t;
    }
  }

  lemma {:induction false} LeadingZero(b: Bytes)
    ensures FromBigEndian([0] + b) == FromBigEndian(b)
    decreases |b|
  {
    var z := [0] + b;
    if b != [] {
      LeadingZero(b[..|b| - 1]);
      assert z[..|z| - 1] == [0] + b[..|b| - 1];
    } else {
      assert z == [0] && z[..0] == [];
    }
  }

  lemma {:induction false} StripKeepsValue(b: Bytes)
    ensures FromBigEndian(StripZeros(b)) == FromBigEndian(b)
    decreases |b|
  {
    if |b| > 1 && b[0] == 0 {
      StripKeepsValue(b[1..]);
      LeadingZero(b[1..]);
      assert b == [0] + b[1..];
    }
  }

  /** What is written for a magnitude with a byte is a number that is not negative, the same, and the shortest. */
  lemma IntegerBytesMean(b: Bytes)
    requires b != []
    ensures var content := WriteIntegerBytes(b);
      && content != [] && content[0] < 128 && FromBigEndian(content) == FromBigEndian(b)
      && (|content| > 1 && content[0] == 0 ==> content[1] >= 128)
  {
    hide StripZeros, FromBigEndian;
    StripKeepsValue(b);
    LeadingZero(StripZeros(b));
  }

  // ---------------------------------------------------------------- the octets spelled out

  /** Arcs: base 128, high digits first, the high bit set on all but the last; the first two in one number. */
  lemma ArcForms(arc: nat)
    ensures arc < 128 ==> WriteArc(arc) == [arc]
    ensures 128 <= arc < 16384 ==> WriteArc(arc) == [arc / 128 + 128, arc % 128]
    ensures 16384 <= arc < 2097152 ==> WriteArc(arc) == [arc / 128 / 128 + 128, arc / 128 % 128 + 128, arc % 128]
  {
    if 128 <= arc < 2097152 {
      var a := arc / 128;
      var b := a / 128;
      assert b < 128 && HighDigits(0) == [];
      assert b > 0 ==> HighDigits(b) == [b % 128 + 128];
      assert HighDigits(a) == HighDigits(b) + [a % 128 + 128];
      assert a < 128 ==> HighDigits(b) == [];
    }
  }

  /** The object identifier of RSA Data Security, 1.2.840.113549, in its published octets, and back. */
  lemma KnownOid()
    ensures EncodeOid([1, 2, 840, 113549]) == [0x2a, 0x86, 0x48, 0x86, 0xf7, 0x0d]
    ensures DecodeOid([0x2a, 0x86, 0x48, 0x86, 0xf7, 0x0d]) == Ok([1, 2, 840, 113549])
  {
    hide ReadArcs, WriteArc;
    ArcForms(840);
    ArcForms(113549);
    var arcs := [1, 2, 840, 113549];
    assert arcs[2..] == [840, 113549] && [840, 113549][1..] == [113549] && [113549][1..] == [];
    assert WriteArcs([113549]) == WriteArc(113549) + WriteArcs([]);
    assert WriteArcs([840, 113549]) == WriteArc(840) + WriteArcs([113549]);
    assert ValidOid(arcs);
    OidRoundTrip(arcs);
  }

  /** Integers: big-endian, shortest, with a zero octet before a high bit. */
  lemma IntegerForms(v: nat)
    ensures v < 128 ==> WriteInteger(v) == [v]
    ensures 128 <= v < 256 ==> WriteInteger(v) == [0, v]
    ensures 256 <= v < 32768 ==> WriteInteger(v) == [v / 256, v % 256]
    ensures 32768 <= v < 65536 ==> WriteInteger(v) == [0, v / 256, v % 256]
  {
    if 0 < v < 65536 {
      var a := v / 256;
      assert ToBigEndian(0) == [];
      assert a > 0 ==> ToBigEndian(a) == [a];
      assert ToBigEndian(v) == ToBigEndian(a) + [v % 256];
    }
  }

  /** Why integer content is refused. */
  lemma IntegerRefusals(content: Bytes)
    ensures content == [] ==> IntegerValue(content) == Err(Empty)
    ensures |content| > 1 && content[0] == 0 && content[1] < 128 ==> IntegerValue(content) == Err(NonMinimal)
    ensures |content| > 1 && content[0] == 0xff && content[1] >= 128 ==> IntegerValue(content) == Err(NonMinimal)
    ensures content != [] && content[0] >= 128 && (|content| == 1 || content[0] != 0xff || content[1] < 128) ==>
      IntegerValue(content) == Err(Negative)
    ensures |content| > 7 && content[0] < 128 && (content[0] != 0 || content[1] >= 128) ==>
      IntegerValue(content) == Err(TooLarge)
  {
    hide FromBigEndian;
  }
}
