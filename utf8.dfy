/** UTF-8, as the two decoders the backend relies on use it:
    `decodeURIComponent` (ECMAScript's Decode operation, which throws on
    any ill-formed sequence) and `URLSearchParams` (the Encoding
    Standard's UTF-8 decoder, which substitutes U+FFFD and goes on).
    Both recognise exactly the well-formed sequences of RFC 3629, table 4
    (no overlong forms, no surrogates, nothing above U+10FFFF); they
    differ only in what an error does. Dafny's `char` is a Unicode scalar
    value, so a decoded supplementary character is one `char` here where
    JavaScript holds a surrogate pair. */
module Utf8 {

  import opened Wrappers

  type Byte = b: int | 0 <= b < 256

  const REPLACEMENT: char := '\U{FFFD}'

  predicate IsContinuation(b: Byte) { 0x80 <= b <= 0xBF }

  /** The UTF-8 encoding of one scalar value. */
  function EncodeChar(c: char): (r: seq<Byte>)
    ensures 1 <= |r| <= 4
    ensures (c as int < 0x80) <==> |r| == 1
    ensures |r| == 1 ==> r[0] == c as int
    ensures |r| > 1 ==> r[0] >= 0xC2 && forall j | 1 <= j < |r| :: IsContinuation(r[j])
  {
    var n := c as int;
    if n < 0x80 then [n]
    else if n < 0x800 then [0xC0 + n / 64, 0x80 + n % 64]
    else if n < 0x10000 then [0xE0 + n / 4096, 0x80 + (n / 64) % 64, 0x80 + n % 64]
    else [0xF0 + n / 262144, 0x80 + (n / 4096) % 64, 0x80 + (n / 64) % 64, 0x80 + n % 64]
  }

  /** The UTF-8 encoding of a string (as `Buffer.from(s, 'utf8')` or the
      byte view the URL standard parses). */
  function Encode(s: string): seq<Byte>
  {
    if s == [] then [] else EncodeChar(s[0]) + Encode(s[1..])
  }

  lemma {:induction false} EncodeConcat(a: string, b: string)
    ensures Encode(a + b) == Encode(a) + Encode(b)
  {
    if a == [] {
      assert a + b == b;
    } else {
      assert (a + b)[0] == a[0];
      assert (a + b)[1..] == a[1..] + b;
      EncodeConcat(a[1..], b);
    }
  }

  /** What a lead byte announces: the number of continuation bytes, the
      admissible range of the first of them, and the value bits the lead
      byte carries. */
  datatype Lead = Ascii | Multi(need: nat, lower: Byte, upper: Byte, bits: int) | Invalid

  function LeadOf(b: Byte): (l: Lead)
    ensures l.Multi? ==> 1 <= l.need <= 3 && 0x80 <= l.lower <= l.upper <= 0xBF
  {
    if b < 0x80 then Ascii
    else if 0xC2 <= b <= 0xDF then Multi(1, 0x80, 0xBF, b - 0xC0)
    else if b == 0xE0 then Multi(2, 0xA0, 0xBF, 0)
    else if b == 0xED then Multi(2, 0x80, 0x9F, 0xD)
    else if 0xE1 <= b <= 0xEF then Multi(2, 0x80, 0xBF, b - 0xE0)
    else if b == 0xF0 then Multi(3, 0x90, 0xBF, 0)
    else if b == 0xF4 then Multi(3, 0x80, 0x8F, 4)
    else if 0xF1 <= b <= 0xF3 then Multi(3, 0x80, 0xBF, b - 0xF0)
    else Invalid
  }

  predicate InRange(bs: seq<Byte>, i: nat, lower: Byte, upper: Byte)
  {
    i < |bs| && lower <= bs[i] <= upper
  }

  /** How many of the `need` bytes after the lead byte are acceptable
      before the first one that is not (or the end of the input). */
  function Accepted(bs: seq<Byte>, need: nat, lower: Byte, upper: Byte): (k: nat)
    requires 1 <= need <= 3
    ensures k <= need && 1 + k <= |bs| + (if |bs| == 0 then 1 else 0)
    ensures k >= 1 ==> InRange(bs, 1, lower, upper)
    ensures forall j | 2 <= j <= k :: InRange(bs, j, 0x80, 0xBF)
    ensures k == 0 < need ==> !InRange(bs, 1, lower, upper)
    ensures 0 < k < need ==> !InRange(bs, 1 + k, 0x80, 0xBF)
  {
    if !InRange(bs, 1, lower, upper) then 0
    else if need == 1 || !InRange(bs, 2, 0x80, 0xBF) then 1
    else if need == 2 || !InRange(bs, 3, 0x80, 0xBF) then 2
    else 3
  }

  /** One decoder step at the front of `bs`: a character and the number of
      bytes it used, or an error and the number of bytes consumed (the byte
      that broke a sequence is not consumed: it starts the next step). */
  datatype Step = Char(c: char, used: nat) | Error(used: nat)

  function StepAt(bs: seq<Byte>): (r: Step)
    requires bs != []
    ensures 1 <= r.used <= |bs|
  {
    match LeadOf(bs[0])
    case Ascii => Char(bs[0] as char, 1)
    case Invalid => Error(1)
    case Multi(need, lower, upper, bits) =>
      var k := Accepted(bs, need, lower, upper);
      if k < need then Error(1 + k)
      else if need == 1 then
        Char(Scalar(bits * 64 + (bs[1] - 0x80)), 2)
      else if need == 2 then
        assert bits == 0 ==> bs[1] >= 0xA0;
        assert bits == 0xD ==> bs[1] <= 0x9F;
        Char(Scalar((bits * 64 + (bs[1] - 0x80)) * 64 + (bs[2] - 0x80)), 3)
      else
        Char(Scalar(((bits * 64 + (bs[1] - 0x80)) * 64 + (bs[2] - 0x80)) * 64 + (bs[3] - 0x80)), 4)
  }

  function Scalar(n: int): char
    requires 0 <= n < 0xD800 || 0xE000 <= n < 0x110000
  {
    n as char
  }

  /** ECMAScript's Decode on the bytes: any error fails the whole call. */
  function DecodeStrict(bs: seq<Byte>): Option<string>
    decreases |bs|
  {
    if bs == [] then Some([])
    else match StepAt(bs)
      case Error(_) => None
      case Char(c, used) =>
        match DecodeStrict(bs[used..])
        case None => None
        case Some(rest) => Some([c] + rest)
  }

  /** The Encoding Standard's UTF-8 decode: each error becomes U+FFFD. */
  function DecodeLenient(bs: seq<Byte>): string
    decreases |bs|
  {
    if bs == [] then []
    else match StepAt(bs)
      case Error(used) => [REPLACEMENT] + DecodeLenient(bs[used..])
      case Char(c, used) => [c] + DecodeLenient(bs[used..])
  }

  /** Where the strict decoder succeeds, the lenient one agrees with it. */
  lemma {:induction false} LenientExtendsStrict(bs: seq<Byte>)
    requires DecodeStrict(bs).Some?
    ensures DecodeLenient(bs) == DecodeStrict(bs).value
    decreases |bs|
  {
    if bs != [] {
      LenientExtendsStrict(bs[StepAt(bs).used..]);
    }
  }

  lemma {:induction false} StepOfEncoded2(c: char, rest: seq<Byte>)
    requires 0x80 <= c as int < 0x800
    ensures StepAt(EncodeChar(c) + rest) == Char(c, 2)
  {
    var e := EncodeChar(c);
    var bs := e + rest;
    var n := c as int;
    assert bs[0] == e[0] && bs[1] == e[1];
    assert n == (n / 64) * 64 + n % 64;
  }

  lemma {:induction false} StepOfEncoded3(c: char, rest: seq<Byte>)
    requires 0x800 <= c as int < 0x10000
    ensures StepAt(EncodeChar(c) + rest) == Char(c, 3)
  {
    var e := EncodeChar(c);
    var bs := e + rest;
    var n := c as int;
    assert bs[0] == e[0] && bs[1] == e[1] && bs[2] == e[2];
    assert n / 64 == (n / 4096) * 64 + (n / 64) % 64;
    assert n == (n / 64) * 64 + n % 64;
  }

  lemma {:induction false} StepOfEncoded4(c: char, rest: seq<Byte>)
    requires 0x10000 <= c as int
    ensures StepAt(EncodeChar(c) + rest) == Char(c, 4)
  {
    var e := EncodeChar(c);
    var bs := e + rest;
    var n := c as int;
    assert bs[0] == e[0] && bs[1] == e[1] && bs[2] == e[2] && bs[3] == e[3];
    assert n / 4096 == (n / 262144) * 64 + (n / 4096) % 64;
    assert n / 64 == (n / 4096) * 64 + (n / 64) % 64;
    assert n == (n / 64) * 64 + n % 64;
  }

  /** The decoder reads back the character that an encoding starts with,
      whatever follows it. */
  lemma {:induction false} StepOfEncoded(c: char, rest: seq<Byte>)
    ensures StepAt(EncodeChar(c) + rest) == Char(c, |EncodeChar(c)|)
  {
    var n := c as int;
    if n < 0x80 {
      assert (EncodeChar(c) + rest)[0] == n;
    } else if n < 0x800 {
      StepOfEncoded2(c, rest);
    } else if n < 0x10000 {
      StepOfEncoded3(c, rest);
    } else {
      StepOfEncoded4(c, rest);
    }
  }

  /** Decoding an encoding gives the string back. */
  lemma {:induction false} DecodeOfEncode(s: string)
    ensures DecodeStrict(Encode(s)) == Some(s)
    ensures DecodeLenient(Encode(s)) == s
  {
    if s != [] {
      var e := EncodeChar(s[0]);
      var tail := Encode(s[1..]);
      StepOfEncoded(s[0], tail);
      assert (e + tail)[|e|..] == tail;
      DecodeOfEncode(s[1..]);
      assert [s[0]] + s[1..] == s;
    }
    LenientExtendsStrict(Encode(s));
  }

  /** An ASCII character encodes as itself, and only an ASCII character
      encodes to a byte below 0x80. */
  lemma {:induction false} EncodeAsciiByte(s: string, b: Byte)
    requires b < 0x80
    ensures b in Encode(s) <==> b as char in s
  {
    if s != [] {
      EncodeAsciiByte(s[1..], b);
      var e := EncodeChar(s[0]);
      assert Encode(s) == e + Encode(s[1..]);
      assert b in e <==> b as char == s[0];
      assert s == [s[0]] + s[1..];
    }
  }
}
