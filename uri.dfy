/** The two URL decoders `filenameFromLinkedImage` runs:
    `decodeURIComponent` (ECMAScript, section 19.2.6.2 of ECMA-262) and
    `new URLSearchParams(q).get(name)` (the WHATWG URL Standard's
    application/x-www-form-urlencoded parser).

    `decodeURIComponent` is modelled on bytes: every character other than
    an escape contributes its own UTF-8 encoding, every `%XY` the byte XY,
    and the resulting bytes are decoded strictly. This is the same as
    ECMAScript's character-by-character Decode: a plain character's
    encoding is always a complete sequence, so it can neither complete nor
    break an escaped sequence other than by making it fail, and both fail
    at the same inputs. */
module Uri {

  import opened Wrappers
  import opened Text
  import opened Utf8

  const PERCENT: Byte := 0x25
  const PLUS: Byte := 0x2B
  const SPACE: Byte := 0x20

  function HexDigit(c: char): Option<nat>
  {
    if '0' <= c <= '9' then Some(c as int - '0' as int)
    else if 'a' <= c <= 'f' then Some(c as int - 'a' as int + 10)
    else if 'A' <= c <= 'F' then Some(c as int - 'A' as int + 10)
    else None
  }

  /** The byte view of `decodeURIComponent`'s input; `None` is the
      URIError for a `%` that is not followed by two hexadecimal digits. */
  function EscapedBytes(s: string): (r: Option<seq<Byte>>)
    ensures '%' !in s ==> r == Some(Encode(s))
  {
    if s == [] then Some([])
    else if s[0] == '%' then
      if |s| < 3 then None
      else match (HexDigit(s[1]), HexDigit(s[2]))
        case (Some(h), Some(l)) =>
          (match EscapedBytes(s[3..])
           case None => None
           case Some(rest) => Some([h * 16 + l as int] + rest))
        case _ => None
    else
      match EscapedBytes(s[1..])
      case None => None
      case Some(rest) => Some(EncodeChar(s[0]) + rest)
  }

  /** `decodeURIComponent(s)`, with `None` for a thrown URIError. */
  function DecodeUriComponent(s: string): Option<string>
  {
    match EscapedBytes(s)
    case None => None
    case Some(bs) => DecodeStrict(bs)
  }

  /** A string without escapes decodes to itself. */
  lemma {:induction false} DecodeUriComponentPlain(s: string)
    requires '%' !in s
    ensures DecodeUriComponent(s) == Some(s)
  {
    DecodeOfEncode(s);
  }

  /** A `%` not followed by two hexadecimal digits is a URIError. */
  lemma {:induction false} DecodeUriComponentBadEscape(a: string, b: string)
    requires '%' !in a
    requires |b| < 2 || HexDigit(b[0]).None? || HexDigit(b[1]).None?
    ensures DecodeUriComponent(a + "%" + b) == None
  {
    var t := "%" + b;
    assert a + "%" + b == a + t;
    EscapedBytesOfPlainPrefix(a, t);
    assert t[0] == '%';
    if |t| >= 3 {
      assert t[1] == b[0] && t[2] == b[1];
    }
  }

  /** `bs` in front of the bytes read so far, or the error. */
  function Prepend(bs: seq<Byte>, r: Option<seq<Byte>>): Option<seq<Byte>>
  {
    match r
    case None => None
    case Some(rest) => Some(bs + rest)
  }

  lemma {:induction false} PrependCons(bs: seq<Byte>, r: Option<seq<Byte>>)
    requires bs != []
    ensures Prepend([bs[0]], Prepend(bs[1..], r)) == Prepend(bs, r)
  {
    assert [bs[0]] + bs[1..] == bs;
    if r.Some? {
      assert [bs[0]] + (bs[1..] + r.value) == ([bs[0]] + bs[1..]) + r.value;
    }
  }

  lemma {:induction false} PrependConcat(a: seq<Byte>, b: seq<Byte>, r: Option<seq<Byte>>)
    ensures Prepend(a, Prepend(b, r)) == Prepend(a + b, r)
  {
    if r.Some? {
      assert a + (b + r.value) == (a + b) + r.value;
    }
  }

  lemma {:induction false} PrependNothing(r: Option<seq<Byte>>)
    ensures Prepend([], r) == r
  {
    if r.Some? {
      assert [] + r.value == r.value;
    }
  }

  /** Text without `%` in front reads as its UTF-8 bytes. */
  lemma {:induction false} EscapedBytesOfPlainPrefix(a: string, t: string)
    requires '%' !in a
    ensures EscapedBytes(a + t) == Prepend(Encode(a), EscapedBytes(t))
  {
    if a != [] {
      EscapedBytesOfPlainPrefix(a[1..], t);
      EscapedBytesOfPlainStep(a, t);
    } else {
      assert a + t == t;
      PrependNothing(EscapedBytes(t));
    }
  }

  /** One plain character in front. */
  lemma {:induction false} EscapedBytesOfPlainStep(a: string, t: string)
    requires a != [] && '%' !in a
    requires EscapedBytes(a[1..] + t) == Prepend(Encode(a[1..]), EscapedBytes(t))
    ensures EscapedBytes(a + t) == Prepend(Encode(a), EscapedBytes(t))
  {
    ConsConcat(a, t);
    EscapedBytesOfPlainHead(a[0], a[1..] + t);
    PrependConcat(EncodeChar(a[0]), Encode(a[1..]), EscapedBytes(t));
    EncodeCons(a);
  }

  lemma {:induction false} EncodeCons(a: string)
    requires a != []
    ensures Encode(a) == EncodeChar(a[0]) + Encode(a[1..])
  {
  }

  lemma {:induction false} ConsConcat(a: string, t: string)
    requires a != []
    ensures a + t == [a[0]] + (a[1..] + t)
  {
  }

  lemma {:induction false} EscapedBytesOfPlainHead(c: char, rest: string)
    requires c != '%'
    ensures EscapedBytes([c] + rest) == Prepend(EncodeChar(c), EscapedBytes(rest))
  {
    var s := [c] + rest;
    assert s[0] == c;
    assert s[1..] == rest;
  }

  /* ------------------------- URLSearchParams(q).get ------------------------ */

  predicate IsHexByte(b: Byte)
  {
    b < 0x80 && HexDigit(b as char).Some?
  }

  /** The URL Standard's percent-decode of a byte sequence: a `%` that
      does not start an escape is kept as it is. */
  function PercentDecode(bs: seq<Byte>): (r: seq<Byte>)
    ensures PERCENT !in bs ==> r == bs
    ensures |r| <= |bs|
  {
    if bs == [] then []
    else if bs[0] == PERCENT && |bs| >= 3 && IsHexByte(bs[1]) && IsHexByte(bs[2]) then
      [HexDigit(bs[1] as char).value * 16 + HexDigit(bs[2] as char).value as int] + PercentDecode(bs[3..])
    else [bs[0]] + PercentDecode(bs[1..])
  }

  /** The upper-case hexadecimal digit of a value below 16, as a byte. */
  function HexChar(v: nat): (r: Byte)
    requires v < 16
    ensures IsHexByte(r) && HexDigit(r as char) == Some(v)
  {
    if v < 10 then 0x30 + v else 0x41 + v - 10
  }

  /** The escape `%XY` of any byte decodes back to that byte. */
  lemma {:induction false} PercentDecodeOfEscape(b: Byte, rest: seq<Byte>)
    ensures PercentDecode([PERCENT, HexChar(b / 16), HexChar(b % 16)] + rest) == [b] + PercentDecode(rest)
  {
    var bs := [PERCENT, HexChar(b / 16), HexChar(b % 16)] + rest;
    assert bs[0] == PERCENT && bs[1] == HexChar(b / 16) && bs[2] == HexChar(b % 16);
    assert bs[3..] == rest;
  }

  /** A `%` that is not followed by two hexadecimal digits is kept, and
      decoding resumes right after it. */
  lemma {:induction false} PercentDecodeOfLonePercent(rest: seq<Byte>)
    requires !(|rest| >= 2 && IsHexByte(rest[0]) && IsHexByte(rest[1]))
    ensures PercentDecode([PERCENT] + rest) == [PERCENT] + PercentDecode(rest)
  {
    assert ([PERCENT] + rest)[1..] == rest;
  }

  function PlusToSpace(bs: seq<Byte>): (r: seq<Byte>)
    ensures |r| == |bs|
    ensures forall i | 0 <= i < |bs| :: r[i] == (if bs[i] == PLUS then SPACE else bs[i])
    ensures PLUS !in r
  {
    seq(|bs|, i requires 0 <= i < |bs| => if bs[i] == PLUS then SPACE else bs[i])
  }

  /** How a name or value of the query is decoded: `+` is a space, escapes
      are bytes, and the bytes are read as UTF-8 with U+FFFD for errors. */
  function FormDecode(s: string): string
  {
    DecodeLenient(PercentDecode(PlusToSpace(Encode(s))))
  }

  /** A name or value without `+` or `%` is taken literally. */
  lemma {:induction false} FormDecodePlain(s: string)
    requires '+' !in s && '%' !in s
    ensures FormDecode(s) == s
  {
    var bs := Encode(s);
    EncodeAsciiByte(s, PLUS);
    EncodeAsciiByte(s, PERCENT);
    assert PlusToSpace(bs) == bs;
    DecodeOfEncode(s);
  }

  /** `s.split(c)` as JavaScript does it: the pieces between the
      occurrences of `c`, read left to right. */
  function Split(s: string, c: char): (r: seq<string>)
    ensures |r| >= 1
    ensures forall i | 0 <= i < |r| :: c !in r[i]
    ensures r[0] == BeforeFirst(s, c)
    ensures Join(r, c) == s
    decreases |s|
  {
    match IndexOf(s, c)
    case None => [s]
    case Some(k) =>
      var rest := Split(s[k + 1..], c);
      assert ([s[..k]] + rest)[1..] == rest;
      assert s == s[..k] + [c] + s[k + 1..];
      [s[..k]] + rest
  }

  /** `pieces.join(c)`: the pieces with one `c` between neighbours. */
  function Join(pieces: seq<string>, c: char): string
    requires |pieces| >= 1
  {
    if |pieces| == 1 then pieces[0] else pieces[0] + [c] + Join(pieces[1..], c)
  }

  /** The part of a `name=value` piece after its first `=` (empty when
      there is none). */
  function AfterFirst(s: string, c: char): (r: string)
    ensures c in s ==> s == BeforeFirst(s, c) + [c] + r
    ensures c !in s ==> r == []
  {
    match IndexOf(s, c)
    case None => []
    case Some(k) => assert s == s[..k] + [c] + s[k + 1..]; s[k + 1..]
  }

  /** The value of the first piece whose decoded name is `key`; empty
      pieces are skipped. */
  function FirstValue(pieces: seq<string>, key: string): Option<string>
  {
    if pieces == [] then None
    else if pieces[0] != [] && FormDecode(BeforeFirst(pieces[0], '=')) == key then
      Some(FormDecode(AfterFirst(pieces[0], '=')))
    else FirstValue(pieces[1..], key)
  }

  /** `new URLSearchParams(q).get(key)`: a leading `?` is dropped, the
      rest is split at `&`. */
  function QueryGet(q: string, key: string): Option<string>
  {
    var body := if |q| > 0 && q[0] == '?' then q[1..] else q;
    FirstValue(Split(body, '&'), key)
  }

  /** A query that starts with `key=v` yields `v`, provided neither the
      key nor `v` holds a `&`, `+` or `%`, the key holds no `=`, and what
      follows starts a new piece. */
  lemma {:induction false} QueryGetFirst(key: string, v: string, rest: string)
    requires key != [] && key[0] != '?'
    requires '&' !in key && '=' !in key && '+' !in key && '%' !in key
    requires '&' !in v && '+' !in v && '%' !in v
    requires rest == [] || rest[0] == '&'
    ensures QueryGet(key + "=" + v + rest, key) == Some(v)
  {
    var piece := key + "=" + v;
    var q := piece + rest;
    assert q[0] == key[0];
    assert '&' !in piece;
    if rest == [] {
      assert q == piece;
      BeforeFirstWithout(piece, '&');
    } else {
      assert q == piece + ['&'] + rest[1..];
      BeforeFirstOfJoin(piece, '&', rest[1..]);
    }
    var pieces := Split(q, '&');
    assert pieces[0] == piece;
    BeforeFirstOfJoin(key, '=', v);
    assert '=' in piece by { assert piece[|key|] == '='; }
    var r := AfterFirst(piece, '=');
    assert key + "=" + r == piece;
    assert r == v by {
      assert r == piece[|key| + 1..];
      assert v == piece[|key| + 1..];
    }
    FormDecodePlain(key);
    FormDecodePlain(v);
  }
}
