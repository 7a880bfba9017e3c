/** Lower-case hex (src/codec.ts:20-39), as used in the log file and in multihashes. */
module Hex {
  import opened Basics

  function Digit(n: int): char
    requires 0 <= n < 16
  {
    if n < 10 then '0' + n as char else 'a' + (n - 10) as char
  }

  predicate IsLower(c: char) {
    '0' <= c <= '9' || 'a' <= c <= 'f'
  }

  predicate IsHex(c: char) {
    IsLower(c) || 'A' <= c <= 'F'
  }

  function Value(c: char): int
    requires IsHex(c)
    ensures 0 <= Value(c) < 16
  {
    if c <= '9' then c as int - '0' as int
    else if c <= 'F' then c as int - 'A' as int + 10
    else c as int - 'a' as int + 10
  }

  lemma DigitValue(n: int)
    requires 0 <= n < 16
    ensures IsLower(Digit(n)) && Value(Digit(n)) == n
  {
  }

  lemma ValueDigit(c: char)
    requires IsLower(c)
    ensures Digit(Value(c)) == c
  {
  }

  function ToHex(b: Bytes): string {
    if b == [] then "" else [Digit(b[0] / 16), Digit(b[0] % 16)] + ToHex(b[1..])
  }

  /** Fails on a character that is not a hex digit and on an odd length. */
  function FromHex(s: string): Option<Bytes> {
    if s == "" then Some([])
    else if |s| == 1 || !IsHex(s[0]) || !IsHex(s[1]) then None
    else
      match FromHex(s[2..])
      case None => None
      case Some(rest) => Some([16 * Value(s[0]) + Value(s[1])] + rest)
  }

  predicate AllLower(s: string) {
    forall i :: 0 <= i < |s| ==> IsLower(s[i])
  }

  lemma {:induction false} ToHexDecodes(b: Bytes)
    ensures |ToHex(b)| == 2 * |b| && AllLower(ToHex(b))
    ensures FromHex(ToHex(b)) == Some(b)
  {
    if b != [] {
      ToHexDecodes(b[1..]);
      DigitValue(b[0] / 16);
      DigitValue(b[0] % 16);
      assert ToHex(b)[2..] == ToHex(b[1..]);
      assert [b[0]] + b[1..] == b;
    }
  }

  lemma {:induction false} FromHexDecodes(s: string)
    requires |s| % 2 == 0 && AllLower(s)
    ensures FromHex(s).Some? && |FromHex(s).value| == |s| / 2 && ToHex(FromHex(s).value) == s
  {
    if s != "" {
      assert forall i :: 0 <= i < |s[2..]| ==> s[2..][i] == s[i + 2];
      FromHexDecodes(s[2..]);
      ValueDigit(s[0]);
      ValueDigit(s[1]);
      var b := FromHex(s).value;
      assert b[0] / 16 == Value(s[0]) && b[0] % 16 == Value(s[1]);
      assert b[1..] == FromHex(s[2..]).value;
      assert [s[0], s[1]] + s[2..] == s;
    }
  }

  /** The code of the lower-case digit for a number below sixteen. */
  function DigitCode(n: nat): nat {
    if n < 10 then 48 + n else 87 + n
  }

  /** Two digits for each byte, the high half first. */
  lemma {:induction false} ToHexMeans(b: Bytes)
    ensures var hex := ToHex(b);
      && |hex| == 2 * |b|
      && forall i :: 0 <= i < |b| ==>
           hex[2 * i] as int == DigitCode(b[i] / 16) && hex[2 * i + 1] as int == DigitCode(b[i] % 16)
    decreases |b|
  {
    if b != [] {
      ToHexMeans(b[1..]);
      var hex, rest := ToHex(b), ToHex(b[1..]);
      forall i | 0 <= i < |b|
        ensures hex[2 * i] as int == DigitCode(b[i] / 16) && hex[2 * i + 1] as int == DigitCode(b[i] % 16)
      {
        if i > 0 {
          assert b[i] == b[1..][i - 1];
          assert hex[2 * i] == rest[2 * (i - 1)] && hex[2 * i + 1] == rest[2 * (i - 1) + 1];
        }
      }
    }
  }

  /** A hex digit of either case stands for this number. */
  predicate StandsFor(c: char, n: int) {
    || ('0' <= c <= '9' && n == c as int - 48)
    || ('a' <= c <= 'f' && n == c as int - 87)
    || ('A' <= c <= 'F' && n == c as int - 55)
  }

  ghost predicate HexDigit(c: char) {
    exists n: int :: StandsFor(c, n)
  }

  /** Two digits stand for a byte, the high half first. */
  ghost predicate PairGives(high: char, low: char, byte: int) {
    exists m: int, n: int :: StandsFor(high, m) && StandsFor(low, n) && byte == 16 * m + n
  }

  lemma HexDigitIsHex(c: char)
    ensures HexDigit(c) <==> IsHex(c)
    ensures IsHex(c) ==> StandsFor(c, Value(c))
  {
    if IsHex(c) {
      assert StandsFor(c, Value(c));
    }
  }

  /** Decoding succeeds exactly on an even number of hex digits of either case, and takes them in pairs. */
  lemma {:induction false} FromHexExactly(s: string)
    ensures FromHex(s).Some? <==> |s| % 2 == 0 && forall i :: 0 <= i < |s| ==> HexDigit(s[i])
    ensures FromHex(s).Some? ==>
      var b := FromHex(s).value;
      2 * |b| == |s| && forall i :: 0 <= i < |b| ==> PairGives(s[2 * i], s[2 * i + 1], b[i])
    decreases |s|
  {
    hide StandsFor, HexDigit, IsHex, Value;
    if |s| >= 2 {
      var rest := s[2..];
      FromHexExactly(rest);
      HexDigitIsHex(s[0]);
      HexDigitIsHex(s[1]);
      assert forall i :: 2 <= i < |s| ==> s[i] == rest[i - 2];
      assert forall i :: 0 <= i < |rest| ==> rest[i] == s[i + 2];
      if FromHex(s).Some? {
        var b, c := FromHex(s).value, FromHex(rest).value;
        forall i | 0 <= i < |b|
          ensures PairGives(s[2 * i], s[2 * i + 1], b[i])
        {
          if i > 0 {
            assert PairGives(rest[2 * (i - 1)], rest[2 * (i - 1) + 1], c[i - 1]);
          }
        }
      }
    }
  }
}

module Multihash {
  import opened Basics
  import opened Hex

  const PREFIX: string := "mh:sha256:"

  function FromDigest(d: Digest): string {
    PREFIX + ToHex(d)
  }

  /** None where the source throws: a missing prefix, bad hex, or not 32 bytes. */
  function ToDigest(mh: string): Option<Digest> {
    if !(PREFIX <= mh) then None
    else
      match FromHex(mh[|PREFIX|..])
      case None => None
      case Some(b) => if |b| == 32 then Some(b) else None
  }

  lemma RoundTrip(d: Digest)
    ensures ToDigest(FromDigest(d)) == Some(d)
  {
    ToHexDecodes(d);
    assert FromDigest(d)[|PREFIX|..] == ToHex(d);
  }

  /** The tagged form is this prefix and the digest in hex; reading refuses any other prefix, bad hex, and any
      other length. */
  lemma TaggedForm(d: Digest, mh: string)
    ensures FromDigest(d) == "mh:sha256:" + ToHex(d)
    ensures ToDigest(mh).Some?
       <==> "mh:sha256:" <= mh && FromHex(mh[10..]).Some? && |FromHex(mh[10..]).value| == 32
    ensures ToDigest(mh).Some? ==> FromHex(mh[10..]) == Some(ToDigest(mh).value)
  {
    hide ToHex, FromHex;
  }
}
