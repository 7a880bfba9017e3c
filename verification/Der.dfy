/**
  The strict DER reader and writer (src/platform/der.ts:34-72, 157-177). The reader accepts
  exactly the writer's outputs, so on its inputs DER has one encoding per element.
 */
module Der {
  import opened Basics

  datatype Error =
    | TooDeep | TruncatedHeader | MultiByteTag | IndefiniteLength | LengthTooLarge
    | TruncatedLength | NonMinimalLength | ContentPastEnd | TrailingBytes

  /** One element: its tag octet, its whole encoding, its content, and the elements inside it. */
  datatype Node = Node(tag: byte, raw: Bytes, content: Bytes, children: seq<Node>)

  datatype Parsed<+T> = Got(value: T, rest: Bytes) | Failed(error: Error)

  const MAX_DEPTH: nat := 32
  const LENGTH_LIMIT: nat := 0x1_0000_0000

  predicate Constructed(tag: byte) {
    tag / 32 % 2 == 1
  }

  // ---------------------------------------------------------------- big-endian numbers

  function ToBigEndian(v: nat): Bytes {
    if v == 0 then [] else ToBigEndian(v / 256) + [v % 256]
  }

  function FromBigEndian(b: Bytes): nat
    decreases |b|
  {
    if b == [] then 0 else FromBigEndian(b[..|b| - 1]) * 256 + b[|b| - 1]
  }

  function Pow256(n: nat): (p: nat)
    ensures p > 0
  {
    if n == 0 then 1 else 256 * Pow256(n - 1)
  }

  lemma {:induction false} BigEndianReads(v: nat)
    ensures FromBigEndian(ToBigEndian(v)) == v
    ensures v > 0 ==> ToBigEndian(v) != [] && ToBigEndian(v)[0] != 0
  {
    if v > 0 {
      BigEndianReads(v / 256);
      assert ToBigEndian(v)[..|ToBigEndian(v)| - 1] == ToBigEndian(v / 256);
    }
  }

  lemma {:induction false} BigEndianWrites(b: Bytes)
    requires b != [] ==> b[0] != 0
    ensures ToBigEndian(FromBigEndian(b)) == b
    ensures b != [] ==> FromBigEndian(b) > 0
    decreases |b|
  {
    if b != [] {
      var init, last := b[..|b| - 1], b[|b| - 1];
      BigEndianWrites(init);
      assert FromBigEndian(b) / 256 == FromBigEndian(init);
      assert b == init + [last];
    }
  }

  lemma {:induction false} BigEndianLength(v: nat, n: nat)
    ensures |ToBigEndian(v)| <= n <==> v < Pow256(n)
  {
    if v > 0 && n > 0 {
      BigEndianLength(v / 256, n - 1);
    }
  }

  // ---------------------------------------------------------------- lengths

  function WriteLength(n: nat): Bytes {
    if n < 128 then [n]
    else
      var bytes := ToBigEndian(n);
      [(128 + |bytes|) % 256] + bytes
  }

  function ReadLength(input: Bytes): (p: Parsed<nat>)
    requires input != []
    ensures p.Got? ==> |p.rest| < |input|
  {
    if input[0] < 128 then Got(input[0], input[1..])
    else
      var n := input[0] - 128;
      if n == 0 then Failed(IndefiniteLength)
      else if n > 4 then Failed(LengthTooLarge)
      else if 1 + n > |input| then Failed(TruncatedLength)
      else
        var len := FromBigEndian(input[1..1 + n]);
        if input[1] == 0 || len < 128 then Failed(NonMinimalLength)
        else Got(len, input[1 + n..])
  }

  lemma Pow256Of4()
    ensures Pow256(4) == LENGTH_LIMIT
  {
  }

  lemma LengthReads(n: nat, rest: Bytes)
    requires n < LENGTH_LIMIT
    ensures ReadLength(WriteLength(n) + rest) == Got(n, rest)
  {
    hide ToBigEndian, FromBigEndian;
    var input := WriteLength(n) + rest;
    if n < 128 {
      assert input[1..] == rest;
    } else {
      var bytes := ToBigEndian(n);
      Pow256Of4();
      BigEndianReads(n);
      BigEndianLength(n, 4);
      assert input == [128 + |bytes|] + bytes + rest;
      assert input[1..1 + |bytes|] == bytes;
      assert input[1 + |bytes|..] == rest;
    }
  }

  lemma LengthWrites(input: Bytes)
    requires input != [] && ReadLength(input).Got?
    ensures ReadLength(input).value < LENGTH_LIMIT
    ensures input == WriteLength(ReadLength(input).value) + ReadLength(input).rest
  {
    hide ToBigEndian, FromBigEndian;
    if input[0] >= 128 {
      var n := input[0] - 128;
      var bytes := input[1..1 + n];
      BigEndianWrites(bytes);
      Pow256Of4();
      BigEndianLength(FromBigEndian(bytes), 4);
      assert input == [input[0]] + bytes + input[1 + n..];
    }
  }

  // ---------------------------------------------------------------- elements

  function Tlv(tag: byte, content: Bytes): Bytes {
    [tag] + WriteLength(|content|) + content
  }

  function ReadOne(input: Bytes, depth: nat): (p: Parsed<Node>)
    ensures p.Got? ==> |p.rest| < |input|
    decreases |input|, 1
  {
    if depth > MAX_DEPTH then Failed(TooDeep)
    else if |input| < 2 then Failed(TruncatedHeader)
    else if input[0] % 32 == 31 then Failed(MultiByteTag)
    else
      match ReadLength(input[1..])
      case Failed(e) => Failed(e)
      case Got(len, rest) =>
        if len > |rest| then Failed(ContentPastEnd)
        else
          var tag, content := input[0], rest[..len];
          match if Constructed(tag) then ReadAll(content, depth + 1) else Ok([])
          case Err(e) => Failed(e)
          case Ok(children) =>
            Got(Node(tag, input[..|input| - |rest| + len], content, children), rest[len..])
  }

  /** The elements inside a constructed one, up to its end. */
  function ReadAll(input: Bytes, depth: nat): Result<seq<Node>, Error>
    decreases |input|, 2
  {
    if input == [] then Ok([])
    else
      match ReadOne(input, depth)
      case Failed(e) => Err(e)
      case Got(node, rest) =>
        match ReadAll(rest, depth)
        case Err(e) => Err(e)
        case Ok(nodes) => Ok([node] + nodes)
  }

  function ParseDer(buf: Bytes): Result<Node, Error> {
    match ReadOne(buf, 0)
    case Failed(e) => Err(e)
    case Got(node, rest) => if rest == [] then Ok(node) else Err(TrailingBytes)
  }

  /** The encodings of a list of elements, one after another. */
  function Concat(nodes: seq<Node>): Bytes {
    if nodes == [] then [] else Tlv(nodes[0].tag, nodes[0].content) + Concat(nodes[1..])
  }

  /** An element the writer can produce at this depth: content within range, and inside a
      constructed element exactly the encodings of its children. */
  predicate Writable(node: Node, depth: nat)
    decreases node
  {
    && depth <= MAX_DEPTH
    && node.tag % 32 != 31
    && |node.content| < LENGTH_LIMIT
    && node.raw == Tlv(node.tag, node.content)
    && (if Constructed(node.tag) then node.content == Concat(node.children) && AllWritable(node.children, depth + 1)
        else node.children == [])
  }

  predicate AllWritable(nodes: seq<Node>, depth: nat)
    decreases nodes
  {
    nodes == [] || (Writable(nodes[0], depth) && AllWritable(nodes[1..], depth))
  }

  /** Reading an encoding returns the element and leaves exactly what follows. */
  lemma {:induction false} OneReads(node: Node, depth: nat, rest: Bytes)
    requires Writable(node, depth)
    ensures ReadOne(Tlv(node.tag, node.content) + rest, depth) == Got(node, rest)
    decreases node
  {
    hide ReadLength, WriteLength, ReadAll, Concat;
    var input := Tlv(node.tag, node.content) + rest;
    var len := |node.content|;
    assert input[1..] == WriteLength(len) + (node.content + rest);
    LengthReads(len, node.content + rest);
    var after := node.content + rest;
    assert after[..len] == node.content && after[len..] == rest;
    assert input[..|input| - |rest|] == node.raw;
    if Constructed(node.tag) {
      AllRead(node.children, depth + 1);
    }
  }

  lemma {:induction false} AllRead(nodes: seq<Node>, depth: nat)
    requires AllWritable(nodes, depth)
    ensures ReadAll(Concat(nodes), depth) == Ok(nodes)
    decreases nodes
  {
    hide ReadOne, Tlv;
    if nodes != [] {
      OneReads(nodes[0], depth, Concat(nodes[1..]));
      AllRead(nodes[1..], depth);
      assert nodes == [nodes[0]] + nodes[1..];
      TlvNonEmpty(nodes[0].tag, nodes[0].content);
    }
  }

  lemma TlvNonEmpty(tag: byte, content: Bytes)
    ensures Tlv(tag, content) != []
  {
  }

  /** What is read is writable, and writing it gives back the bytes read. */
  lemma {:induction false} OneWrites(input: Bytes, depth: nat)
    requires ReadOne(input, depth).Got?
    ensures var p := ReadOne(input, depth);
      Writable(p.value, depth) && input == Tlv(p.value.tag, p.value.content) + p.rest
    decreases |input|, 1
  {
    hide ReadLength, WriteLength, ReadAll, Concat;
    LengthWrites(input[1..]);
    var p := ReadOne(input, depth);
    var header := ReadLength(input[1..]);
    var node, after := p.value, header.rest;
    assert after == node.content + p.rest;
    assert input == [input[0]] + input[1..];
    assert input == Tlv(node.tag, node.content) + p.rest;
    assert node.raw == input[..|input| - |p.rest|] == Tlv(node.tag, node.content);
    if Constructed(node.tag) {
      AllWrite(node.content, depth + 1);
    }
  }

  lemma {:induction false} AllWrite(input: Bytes, depth: nat)
    requires ReadAll(input, depth).Ok?
    ensures var nodes := ReadAll(input, depth).value; AllWritable(nodes, depth) && input == Concat(nodes)
    decreases |input|, 2
  {
    hide ReadOne, Tlv, Writable;
    if input != [] {
      OneWrites(input, depth);
      var p := ReadOne(input, depth);
      AllWrite(p.rest, depth);
      var nodes := ReadAll(input, depth).value;
      assert nodes[1..] == ReadAll(p.rest, depth).value;
    }
  }

  /** DER is a bijection: a buffer parses to an element exactly when the element is writable and
      the buffer is its encoding. */
  lemma ParseIsInverse(buf: Bytes, node: Node)
    ensures ParseDer(buf) == Ok(node) <==> Writable(node, 0) && buf == Tlv(node.tag, node.content)
  {
    hide ReadOne, Tlv, Writable;
    if ParseDer(buf) == Ok(node) {
      OneWrites(buf, 0);
      assert Tlv(node.tag, node.content) + [] == Tlv(node.tag, node.content);
    }
    if Writable(node, 0) && buf == Tlv(node.tag, node.content) {
      OneReads(node, 0, []);
      assert buf + [] == buf;
    }
  }

  /** So two accepted buffers with the same element are the same buffer. */
  lemma OneEncoding(a: Bytes, b: Bytes)
    requires ParseDer(a).Ok? && ParseDer(a) == ParseDer(b)
    ensures a == b
  {
    ParseIsInverse(a, ParseDer(a).value);
    ParseIsInverse(b, ParseDer(b).value);
  }

  // ---------------------------------------------------------------- the loops

  /** tlv: the length octets are put in front one by one. */
  method BuildTlv(tag: byte, content: Bytes) returns (out: Bytes)
    ensures out == Tlv(tag, content)
  {
    var n := |content|;
    var head: Bytes;
    if n < 128 {
      head := [tag, n];
    } else {
      var bytes: Bytes := [];
      var v: nat := n;
      while v > 0
        invariant ToBigEndian(n) == ToBigEndian(v) + bytes
      {
        assert ToBigEndian(v) + bytes == ToBigEndian(v / 256) + ([v % 256] + bytes);
        bytes := [v % 256] + bytes;
        v := v / 256;
      }
      assert ToBigEndian(n) == [] + bytes == bytes;
      head := [tag, (128 + |bytes|) % 256] + bytes;
    }
    assert head == [tag] + WriteLength(n);
    out := head + content;
  }

  /** readOne on a buffer and an offset. */
  method ReadOneAt(buf: Bytes, offset: nat, depth: nat) returns (r: Result<Node, Error>, next: nat)
    requires offset <= |buf|
    ensures r.Ok? ==> offset < next <= |buf|
    ensures ReadOne(buf[offset..], depth) == if r.Ok? then Got(r.value, buf[next..]) else Failed(r.error)
    decreases |buf| - offset, 1
  {
    hide ReadAll, FromBigEndian;
    ghost var input := buf[offset..];
    next := offset;
    if depth > MAX_DEPTH {
      return Err(TooDeep), next;
    }
    if offset + 2 > |buf| {
      return Err(TruncatedHeader), next;
    }
    var tag := buf[offset];
    if tag % 32 == 31 {
      return Err(MultiByteTag), next;
    }
    var length, p := ReadLengthAt(buf, offset + 1);
    assert input[1..] == buf[offset + 1..];
    if length.Err? {
      return Err(length.error), next;
    }
    var len := length.value;
    var end := p + len;
    ghost var rest := buf[p..];
    if end > |buf| {
      return Err(ContentPastEnd), next;
    }
    var content := buf[p..end];
    assert content == rest[..len] && rest[len..] == buf[end..];
    assert input[..|input| - |rest| + len] == buf[offset..end];
    var children: Result<seq<Node>, Error> := Ok([]);
    if Constructed(tag) {
      children := ReadChildren(content, depth + 1);
    }
    if children.Err? {
      return Err(children.error), next;
    }
    return Ok(Node(tag, buf[offset..end], content, children.value)), end;
  }

  /** The accumulating loop over the length octets. */
  method ReadLengthAt(buf: Bytes, q: nat) returns (r: Result<nat, Error>, p: nat)
    requires q < |buf|
    ensures r.Ok? ==> q < p <= |buf|
    ensures ReadLength(buf[q..]) == if r.Ok? then Got(r.value, buf[p..]) else Failed(r.error)
  {
    ghost var input := buf[q..];
    var len: nat := buf[q];
    p := q + 1;
    if len >= 128 {
      var n := len - 128;
      if n == 0 {
        return Err(IndefiniteLength), p;
      }
      if n > 4 {
        return Err(LengthTooLarge), p;
      }
      if p + n > |buf| {
        return Err(TruncatedLength), p;
      }
      len := 0;
      for i := 0 to n
        invariant len == FromBigEndian(buf[p..p + i])
      {
        assert buf[p..p + i + 1][..i] == buf[p..p + i];
        len := len * 256 + buf[p + i];
      }
      assert buf[p..p + n] == input[1..1 + n];
      if buf[p] == 0 || len < 128 {
        return Err(NonMinimalLength), p;
      }
      p := p + n;
    }
    assert input[p - q..] == buf[p..];
    return Ok(len), p;
  }

  /** The `while (q < content.length)` loop. */
  method ReadChildren(content: Bytes, depth: nat) returns (r: Result<seq<Node>, Error>)
    ensures r == ReadAll(content, depth)
    decreases |content|, 2
  {
    hide ReadOne;
    var nodes: seq<Node> := [];
    var q := 0;
    assert content[0..] == content;
    PrependNil(ReadAll(content, depth));
    while q < |content|
      invariant 0 <= q <= |content|
      invariant ReadAll(content, depth) == Prepend(nodes, ReadAll(content[q..], depth))
      decreases |content| - q
    {
      var one, next := ReadOneAt(content, q, depth);
      if one.Err? {
        return Err(one.error);
      }
      PrependCons(nodes, one.value, ReadAll(content[next..], depth));
      nodes := nodes + [one.value];
      q := next;
    }
    assert content[q..] == [] && nodes + [] == nodes;
    return Ok(nodes);
  }

  ghost function Prepend(nodes: seq<Node>, r: Result<seq<Node>, Error>): Result<seq<Node>, Error> {
    if r.Ok? then Ok(nodes + r.value) else r
  }

  lemma PrependNil(r: Result<seq<Node>, Error>)
    ensures Prepend([], r) == r
  {
    if r.Ok? {
      assert [] + r.value == r.value;
    }
  }

  lemma PrependCons(nodes: seq<Node>, node: Node, r: Result<seq<Node>, Error>)
    ensures Prepend(nodes + [node], r) == Prepend(nodes, Prepend([node], r))
  {
    if r.Ok? {
      assert nodes + [node] + r.value == nodes + ([node] + r.value);
    }
  }

  // ---------------------------------------------------------------- the octets spelled out

  /** Lengths: one octet below 128, otherwise the number of octets that follow and these, high first. */
  lemma LengthForms(n: nat)
    ensures n < 128 ==> WriteLength(n) == [n]
    ensures 128 <= n < 256 ==> WriteLength(n) == [0x81, n]
    ensures 256 <= n < 65536 ==> WriteLength(n) == [0x82, n / 256, n % 256]
    ensures 65536 <= n < 16777216 ==> WriteLength(n) == [0x83, n / 256 / 256, n / 256 % 256, n % 256]
    ensures 16777216 <= n < 4294967296 ==>
      WriteLength(n) == [0x84, n / 256 / 256 / 256, n / 256 / 256 % 256, n / 256 % 256, n % 256]
  {
    if 128 <= n < 4294967296 {
      var a := n / 256;
      var b := a / 256;
      var c := b / 256;
      assert c < 256 && c / 256 == 0;
      assert ToBigEndian(0) == [];
      assert c > 0 ==> ToBigEndian(c) == [c];
      assert b > 0 ==> ToBigEndian(b) == ToBigEndian(c) + [b % 256];
      assert a > 0 ==> ToBigEndian(a) == ToBigEndian(b) + [a % 256];
      assert ToBigEndian(n) == ToBigEndian(a) + [n % 256];
    }
  }

  /** An element is its tag, the length of its content, and that; constructed if the sixth bit of the tag is set. */
  lemma ElementForm(tag: byte, content: Bytes)
    ensures Tlv(tag, content) == [tag] + WriteLength(|content|) + content
    ensures Constructed(tag) <==> tag % 64 >= 32
  {
  }

  /** Why an input is refused, in the order of the checks. */
  lemma RefusalsMean(input: Bytes, depth: nat)
    ensures depth > 32 ==> ReadOne(input, depth) == Failed(TooDeep)
    ensures depth <= 32 && |input| < 2 ==> ReadOne(input, depth) == Failed(TruncatedHeader)
    ensures depth <= 32 && |input| >= 2 && input[0] % 32 == 31 ==> ReadOne(input, depth) == Failed(MultiByteTag)
    ensures depth <= 32 && |input| >= 2 && input[0] % 32 != 31 ==>
      var first := input[1];
      && (first == 0x80 ==> ReadOne(input, depth) == Failed(IndefiniteLength))
      && (first > 0x84 ==> ReadOne(input, depth) == Failed(LengthTooLarge))
      && (0x80 < first <= 0x84 && |input| < 2 + (first - 0x80) ==> ReadOne(input, depth) == Failed(TruncatedLength))
      && (0x80 < first <= 0x84 && |input| >= 2 + (first - 0x80) && input[2] == 0 ==>
            ReadOne(input, depth) == Failed(NonMinimalLength))
      && (first == 0x81 && |input| >= 3 && input[2] < 128 ==> ReadOne(input, depth) == Failed(NonMinimalLength))
      && (first < 0x80 && |input| < 2 + first ==> ReadOne(input, depth) == Failed(ContentPastEnd))
  {
    hide ReadAll;
    if depth <= 32 && |input| >= 2 {
      var rest := input[1..];
      assert rest[0] == input[1];
      if input[1] == 0x81 && |input| >= 3 {
        assert rest[1] == input[2] && rest[1..2] == [input[2]];
        assert [input[2]][..0] == [];
        assert FromBigEndian(rest[1..2]) == input[2];
      }
    }
  }

  /** Whatever follows the element is refused. */
  lemma TrailingRefused(node: Node, rest: Bytes)
    requires Writable(node, 0) && rest != []
    ensures ParseDer(Tlv(node.tag, node.content) + rest) == Err(TrailingBytes)
  {
    hide ReadOne, Writable, Tlv;
    OneReads(node, 0, rest);
  }
}
