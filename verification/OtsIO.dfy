/**
  The reader and writer objects (src/phala/anchor.ts:126-205) and the imperative parser and
  printer built on them, each proved equal to its function in OtsWire and OtsTree.
 */
module OtsIO {
  import opened Basics
  import opened OtsWire
  import opened OtsOrder
  import opened StableSort
  import opened OtsTree

  class Reader {
    const bytes: Bytes
    var offset: nat

    ghost predicate Valid()
      reads this
    {
      offset <= |bytes|
    }

    /** The bytes not read yet. */
    ghost function Rest(): Bytes
      requires Valid()
      reads this
    {
      bytes[offset..]
    }

    constructor (bytes: Bytes)
      ensures Valid() && Rest() == bytes
    {
      this.bytes := bytes;
      offset := 0;
    }

    method Byte() returns (r: Result<byte, Error>)
      requires Valid()
      modifies this
      ensures Valid()
      ensures r == if old(Rest()) == [] then Err(EndsMidStructure) else Ok(old(Rest())[0])
      ensures r.Ok? ==> Rest() == old(Rest())[1..]
    {
      if offset >= |bytes| {
        return Err(EndsMidStructure);
      }
      offset := offset + 1;
      return Ok(bytes[offset - 1]);
    }

    method TakeBytes(n: nat) returns (p: Result<Bytes, Error>)
      requires Valid()
      modifies this
      ensures Valid() && Agrees(p, Take(old(Rest()), n))
    {
      if offset + n > |bytes| {
        return Err(EndsMidValue);
      }
      var slice := bytes[offset..offset + n];
      assert slice == old(Rest())[..n];
      offset := offset + n;
      assert Rest() == old(Rest())[n..];
      return Ok(slice);
    }

    /** The object's answer and position are those of the function. */
    ghost predicate Agrees<T>(r: Result<T, Error>, p: Parsed<T>)
      requires Valid()
      reads this
    {
      match p
      case Failed(e) => r == Err(e)
      case Got(v, rest) => r == Ok(v) && Rest() == rest
    }

    /** Groups are added with a growing shift, as powers of two. */
    method VarUintValue() returns (r: Result<nat, Error>)
      requires Valid()
      modifies this
      ensures Valid() && Agrees(r, ReadVarUint(old(Rest())))
    {
      hide ReadVarUint, Weigh;
      var value: nat, weight: nat, group: nat := 0, 1, 0;
      ghost var start := Rest();
      WeighOne(ReadVarUint(start));
      while true
        invariant Valid() && group <= 8
        invariant ReadVarUint(start) == Weigh(ReadVarUint(Rest(), group), value, weight)
        decreases |bytes| - offset
      {
        WeighStep(Rest(), group, value, weight);
        var b := Byte();
        if b.Err? {
          return Err(b.error);
        }
        value := value + (b.value % 128) as nat * weight;
        if b.value < 128 {
          return Ok(value);
        }
        weight := 128 * weight;
        group := group + 1;
        if group > 8 {
          return Err(VarUintTooLarge);
        }
      }
    }

    method VarBytesValue() returns (r: Result<Bytes, Error>)
      requires Valid()
      modifies this
      ensures Valid() && Agrees(r, ReadVarBytes(old(Rest())))
    {
      var n := VarUintValue();
      if n.Err? {
        return Err(n.error);
      }
      r := TakeBytes(n.value);
    }
  }

  /** The value so far, plus what the remaining groups add at this weight. */
  ghost function Weigh(p: Parsed<nat>, value: nat, weight: nat): Parsed<nat> {
    match p
    case Failed(e) => Failed(e)
    case Got(v, rest) => Got(value + v * weight, rest)
  }

  lemma WeighOne(p: Parsed<nat>)
    ensures Weigh(p, 0, 1) == p
  {
  }

  /** One turn of the loop: the group read moves from the rest into the value. */
  lemma WeighStep(rest: Bytes, group: nat, value: nat, weight: nat)
    requires group <= 8
    ensures rest == [] ==> Weigh(ReadVarUint(rest, group), value, weight) == Failed(EndsMidStructure)
    ensures rest != [] ==>
      Weigh(ReadVarUint(rest, group), value, weight) ==
        var value' := value + (rest[0] % 128) as nat * weight;
        if rest[0] < 128 then Got(value', rest[1..])
        else if group == 8 then Failed(VarUintTooLarge)
        else Weigh(ReadVarUint(rest[1..], group + 1), value', 128 * weight)
  {
    if rest != [] && rest[0] >= 128 && group < 8 {
      var high := ReadVarUint(rest[1..], group + 1);
      if high.Got? {
        Distribute(rest[0] % 128, high.value, value, weight);
      }
    }
  }

  lemma Distribute(low: nat, high: nat, value: nat, weight: nat)
    ensures value + (low + 128 * high) * weight == (value + low * weight) + high * (128 * weight)
  {
  }

  /** readAttestation. */
  method ReadAttestationFrom(env: Env, reader: Reader) returns (r: Result<Attestation, Error>)
    requires reader.Valid()
    modifies reader
    ensures reader.Valid() && reader.Agrees(r, ReadAttestation(env, old(reader.Rest())))
  {
    var tag := reader.TakeBytes(8);
    if tag.Err? {
      return Err(tag.error);
    }
    var payload := reader.VarBytesValue();
    if payload.Err? {
      return Err(payload.error);
    }
    r := DecodeAttestation(env, tag.value, payload.value);
  }

  /** readTimestamp: items are pushed onto the node until one without a separator. */
  method ReadTimestamp(env: Env, reader: Reader, msg: Bytes) returns (r: Result<Stamp, Error>)
    requires reader.Valid()
    modifies reader
    ensures reader.Valid() && reader.Agrees(r, ReadStamp(env, old(reader.Rest()), msg))
    decreases |reader.Rest()|, 2
  {
    hide ReadItem;
    ghost var input := reader.Rest();
    var stamp := Stamp(msg, [], []);
    var tag := reader.Byte();
    if tag.Err? {
      return Err(tag.error);
    }
    assert [tag.value] + reader.Rest() == input;
    while tag.value == 0xff
      invariant reader.Valid() && tag.Ok? && |reader.Rest()| < |input|
      invariant ReadStamp(env, input, msg) == ReadItems(env, [tag.value] + reader.Rest(), stamp)
      decreases |reader.Rest()|
    {
      ghost var rest := reader.Rest();
      var inner := reader.Byte();
      if inner.Err? {
        return Err(inner.error);
      }
      assert ([tag.value] + rest)[2..] == rest[1..];
      var item := ReadOneItem(env, reader, inner.value, stamp);
      if item.Err? {
        return Err(item.error);
      }
      stamp := item.value;
      ghost var after := reader.Rest();
      tag := reader.Byte();
      if tag.Err? {
        return Err(tag.error);
      }
      assert [tag.value] + reader.Rest() == after;
    }
    assert ([tag.value] + reader.Rest())[1..] == reader.Rest();
    r := ReadOneItem(env, reader, tag.value, stamp);
  }

  method ReadOneItem(env: Env, reader: Reader, tag: byte, acc: Stamp) returns (r: Result<Stamp, Error>)
    requires reader.Valid()
    modifies reader
    ensures reader.Valid() && reader.Agrees(r, ReadItem(env, tag, old(reader.Rest()), acc))
    decreases |reader.Rest()|, 3
  {
    hide ReadStamp, ReadAttestation, ApplyOp;
    if tag == 0 {
      var a := ReadAttestationFrom(env, reader);
      if a.Err? {
        return Err(a.error);
      }
      return Ok(acc.(attestations := acc.attestations + [a.value]));
    }
    var op := Op(tag, None);
    if tag == OP_APPEND || tag == OP_PREPEND {
      var arg := reader.VarBytesValue();
      if arg.Err? {
        return Err(arg.error);
      }
      op := Op(tag, Some(arg.value));
    }
    var msg := ApplyOp(env, op, acc.msg);
    if msg.None? {
      return Err(UnknownOperation);
    }
    var below := ReadTimestamp(env, reader, msg.value);
    if below.Err? {
      return Err(below.error);
    }
    return Ok(acc.(ops := acc.ops + [Branch(op, below.value)]));
  }

  class Writer {
    var chunks: Bytes

    constructor ()
      ensures chunks == []
    {
      chunks := [];
    }

    method Byte(b: byte)
      modifies this
      ensures chunks == old(chunks) + [b]
    {
      chunks := chunks + [b];
    }

    method PutBytes(b: Bytes)
      modifies this
      ensures chunks == old(chunks) + b
    {
      for i := 0 to |b|
        invariant chunks == old(chunks) + b[..i]
      {
        chunks := chunks + [b[i]];
      }
    }

    method PutVarUint(n: nat)
      modifies this
      ensures chunks == old(chunks) + VarUint(n)
    {
      var remaining := n;
      ghost var done: Bytes := [];
      while remaining >= 128
        invariant chunks == old(chunks) + done && VarUint(n) == done + VarUint(remaining)
      {
        Byte(remaining % 128 + 128);
        done := done + [remaining % 128 + 128];
        remaining := remaining / 128;
      }
      Byte(remaining);
    }

    method PutVarBytes(b: Bytes)
      modifies this
      ensures chunks == old(chunks) + VarBytes(b)
    {
      PutVarUint(|b|);
      PutBytes(b);
    }

    method PutAttestation(env: Env, a: Attestation)
      modifies this
      ensures chunks == old(chunks) + WriteAttestation(env, a)
    {
      hide VarBytes;
      PutBytes(Tag(a));
      PutVarBytes(Payload(env, a));
    }

    method PutOp(op: Op)
      modifies this
      ensures chunks == old(chunks) + WriteOp(op)
    {
      Byte(op.tag);
      if op.arg.Some? {
        PutVarBytes(op.arg.value);
      }
    }
  }

  /** The attestations of one node, all but the last item of the node after a separator. */
  function AttestationItems(env: Env, atts: seq<Attestation>, more: bool): Bytes {
    if atts == [] then []
    else
      var item := [0] + WriteAttestation(env, atts[0]);
      (if |atts| > 1 || more then [0xff] + item else item) + AttestationItems(env, atts[1..], more)
  }

  lemma {:induction false} ItemsByKind(env: Env, atts: seq<Attestation>, ops: seq<Branch>, h: nat)
    requires Within(ops, h) && |atts| + |ops| > 0
    ensures var first := AttestationItems(env, atts, |ops| > 0);
      WriteItems(env, atts, ops, h) ==
        if ops == [] then Some(first)
        else match WriteItems(env, [], ops, h) case None => None case Some(rest) => Some(first + rest)
    decreases |atts|
  {
    hide WriteAttestation, WriteStamp, WriteOp;
    if atts == [] {
      assert WriteItems(env, [], ops, h).Some? ==>
        [] + WriteItems(env, [], ops, h).value == WriteItems(env, [], ops, h).value;
    } else if |atts| + |ops| > 1 {
      ItemsByKind(env, atts[1..], ops, h);
      if ops != [] && WriteItems(env, [], ops, h).Some? {
        var item, first, rest := [0xff] + ([0] + WriteAttestation(env, atts[0])),
          AttestationItems(env, atts[1..], true), WriteItems(env, [], ops, h).value;
        assert item + (first + rest) == (item + first) + rest;
      }
    } else {
      var item := [0] + WriteAttestation(env, atts[0]);
      assert item + [] == item && atts[1..] == [];
    }
  }

  /** One attestation, with a separator if anything follows. */
  function AttestationPart(env: Env, a: Attestation, last: bool): Bytes {
    (if last then [] else [0xff]) + [0] + WriteAttestation(env, a)
  }

  lemma ItemsFrom(env: Env, atts: seq<Attestation>, more: bool, i: nat)
    requires i < |atts|
    ensures AttestationItems(env, atts[i..], more)
         == AttestationPart(env, atts[i], i == |atts| - 1 && !more) + AttestationItems(env, atts[i + 1..], more)
  {
    hide WriteAttestation;
    assert atts[i..][1..] == atts[i + 1..];
  }

  lemma ItemsNone(env: Env, more: bool)
    ensures AttestationItems(env, [], more) == []
  {
  }

  method WriteAttestations(env: Env, writer: Writer, atts: seq<Attestation>, more: bool)
    modifies writer
    ensures writer.chunks == old(writer.chunks) + AttestationItems(env, atts, more)
  {
    hide AttestationItems, WriteAttestation;
    ghost var done: Bytes := [];
    assert atts[0..] == atts;
    for i := 0 to |atts|
      invariant writer.chunks == old(writer.chunks) + done
      invariant AttestationItems(env, atts, more) == done + AttestationItems(env, atts[i..], more)
    {
      ItemsFrom(env, atts, more, i);
      if i < |atts| - 1 || more {
        writer.Byte(0xff);
      }
      writer.Byte(0);
      writer.PutAttestation(env, atts[i]);
      done := done + AttestationPart(env, atts[i], i == |atts| - 1 && !more);
    }
    ItemsNone(env, more);
    assert atts[|atts|..] == [];
  }

  /** writeTimestamp: sorted copies, a separator before every item but the last. */
  method WriteTimestamp(env: Env, writer: Writer, s: Stamp) returns (ok: bool)
    modifies writer
    ensures ok <==> WriteStamp(env, s).Some?
    ensures ok ==> writer.chunks == old(writer.chunks) + WriteStamp(env, s).value
    decreases Height(s), 0
  {
    hide Sort, WriteItems, AttestationItems;
    var atts, ops := Sort(CompareAttestations, s.attestations), Sort(CompareBranches, s.ops);
    SortWithin(s.ops);
    ghost var h := MaxHeight(s.ops);
    if |atts| == 0 && |ops| == 0 {
      NothingToWrite(env, h);
      return false;
    }
    ItemsByKind(env, atts, ops, h);
    WriteAttestations(env, writer, atts, |ops| > 0);
    ok := WriteBranches(env, writer, ops, h);
  }

  lemma NothingToWrite(env: Env, h: nat)
    ensures WriteItems(env, [], [], h) == None
  {
  }

  method WriteBranches(env: Env, writer: Writer, ops: seq<Branch>, ghost h: nat) returns (ok: bool)
    requires Within(ops, h)
    modifies writer
    ensures |ops| == 0 ==> ok && writer.chunks == old(writer.chunks)
    ensures |ops| > 0 ==> (ok <==> WriteItems(env, [], ops, h).Some?)
    ensures |ops| > 0 && ok ==> writer.chunks == old(writer.chunks) + WriteItems(env, [], ops, h).value
    decreases h, 1 + |ops|
  {
    hide WriteStamp, WriteOp;
    if |ops| == 0 {
      return true;
    }
    assert BranchHeight(ops[0]) <= h;
    if |ops| > 1 {
      writer.Byte(0xff);
    }
    writer.PutOp(ops[0].op);
    ok := WriteTimestamp(env, writer, ops[0].stamp);
    if !ok {
      return;
    }
    assert Within(ops[1..], h) by {
      assert forall i :: 0 <= i < |ops[1..]| ==> ops[1..][i] == ops[i + 1];
    }
    ok := WriteBranches(env, writer, ops[1..], h);
  }
}
