/** Thumbnail URLs (dropboxRoutes.js lines 290-297 and 374-375).
    `makeThumbUrl(path, size)` puts the UTF-8 bytes of the Dropbox path,
    base64-encoded (RFC 4648, section 4) and made URL-safe (`+` to `-`,
    `/` to `_`, padding dropped), into the route path, and the
    size, escaped by `encodeURIComponent`, into the query. The thumbnail
    route undoes this: it maps the URL-safe characters back, pads the text
    with `=` to a multiple of four characters, base64-decodes it and reads
    the bytes as UTF-8. */
module ThumbPath {

  import opened Wrappers
  import opened Text
  import opened Utf8
  import opened Uri

  const DEFAULT_THUMB: string := "w640h480"
  const THUMB_ROUTE: string := "/api/dropbox/thumb/"

  /* -------------------------------- base64 -------------------------------- */

  type Sextet = v: nat | v < 64

  /** The base64 alphabet: `A-Z`, `a-z`, `0-9`, `+`, `/`. */
  function SextetChar(v: Sextet): (c: char)
    ensures IsAlnum(c) || c == '+' || c == '/'
  {
    if v < 26 then ('A' as int + v) as char
    else if v < 52 then ('a' as int + v - 26) as char
    else if v < 62 then ('0' as int + v - 52) as char
    else if v == 62 then '+'
    else '/'
  }

  function SextetValue(c: char): Option<Sextet>
  {
    if 'A' <= c <= 'Z' then Some(c as int - 'A' as int)
    else if 'a' <= c <= 'z' then Some(c as int - 'a' as int + 26)
    else if '0' <= c <= '9' then Some(c as int - '0' as int + 52)
    else if c == '+' then Some(62)
    else if c == '/' then Some(63)
    else None
  }

  lemma {:induction false} SextetValueOfChar(v: Sextet)
    ensures SextetValue(SextetChar(v)) == Some(v)
  {
  }

  /** The sextets of `bs` (RFC 4648, section 4): three bytes give four
      sextets, and a last group of one or two bytes gives two or three,
      the missing low bits being zero. */
  function Pack(bs: seq<Byte>): (r: seq<Sextet>)
    decreases |bs|
  {
    if |bs| == 0 then []
    else
      var v0: Sextet := bs[0] / 4;
      if |bs| == 1 then
        var v1: Sextet := (bs[0] % 4) * 16;
        [v0, v1]
      else
        var v1: Sextet := (bs[0] % 4) * 16 + bs[1] / 16;
        if |bs| == 2 then
          var v2: Sextet := (bs[1] % 16) * 4;
          [v0, v1, v2]
        else
          var v2: Sextet := (bs[1] % 16) * 4 + bs[2] / 64;
          var v3: Sextet := bs[2] % 64;
          [v0, v1, v2, v3] + Pack(bs[3..])
  }

  /** The alphabet characters of a sequence of sextets. */
  function Chars(vs: seq<Sextet>): (r: string)
  {
    seq(|vs|, i requires 0 <= i < |vs| => SextetChar(vs[i]))
  }

  /** The base64 characters of `bs`, without the padding. */
  function Base64Body(bs: seq<Byte>): string
  {
    Chars(Pack(bs))
  }

  function Equals(k: nat): (r: string)
  {
    seq(k, _ => '=')
  }

  /** `buf.toString('base64')`: the body, padded with `=` to a multiple of
      four characters. */
  function Base64Encode(bs: seq<Byte>): string
  {
    Base64Body(bs) + Equals(if |bs| % 3 == 0 then 0 else 3 - |bs| % 3)
  }

  predicate InAlphabet(s: string)
  {
    forall i | 0 <= i < |s| :: SextetValue(s[i]).Some?
  }

  /** The sextets of text in the alphabet. */
  function SextetsOf(s: string): (r: seq<Sextet>)
    requires InAlphabet(s)
  {
    seq(|s|, i requires 0 <= i < |s| => SextetValue(s[i]).value)
  }

  /** One group of four sextets (or a last group of two or three) as
      bytes. */
  function Group(vs: seq<Sextet>): (r: seq<Byte>)
    requires |vs| <= 4
  {
    if |vs| <= 1 then []
    else
      var b0: Byte := vs[0] as int * 4 + vs[1] as int / 16;
      if |vs| == 2 then [b0]
      else
        var b1: Byte := (vs[1] as int % 16) * 16 + vs[2] as int / 4;
        if |vs| == 3 then [b0, b1]
        else
          var b2: Byte := (vs[2] as int % 4) * 64 + vs[3] as int;
          [b0, b1, b2]
  }

  /** Bytes from sextets, group by group; a last lone sextet gives no
      byte, and the bits left over are dropped. */
  function Unpack(vs: seq<Sextet>): seq<Byte>
    decreases |vs|
  {
    if |vs| <= 4 then Group(vs) else Group(vs[..4]) + Unpack(vs[4..])
  }

  /** `s` without its trailing run of `c`. */
  function StripTrailing(s: string, c: char): (r: string)
    ensures r <= s && (r == [] || r[|r| - 1] != c)
  {
    if s != [] && s[|s| - 1] == c then StripTrailing(s[..|s| - 1], c) else s
  }

  /** `Buffer.from(s, 'base64')` on text of the alphabet followed by
      padding; `None` for any other text. */
  function Base64Decode(s: string): Option<seq<Byte>>
  {
    var body := StripTrailing(s, '=');
    if InAlphabet(body) then Some(Unpack(SextetsOf(body))) else None
  }

  /* ---------------------------- URL-safe form ----------------------------- */

  /** `.replace(/\+/g, '-').replace(/\//g, '_')`. */
  function ToUrlSafe(s: string): (r: string)
    ensures |r| == |s|
    ensures forall i | 0 <= i < |s| :: r[i] == (if s[i] == '+' then '-' else if s[i] == '/' then '_' else s[i])
    ensures '+' !in r && '/' !in r
  {
    seq(|s|, i requires 0 <= i < |s| => if s[i] == '+' then '-' else if s[i] == '/' then '_' else s[i])
  }

  /** `.replace(/-/g, '+').replace(/_/g, '/')`. */
  function FromUrlSafe(s: string): (r: string)
    ensures |r| == |s|
    ensures forall i | 0 <= i < |s| :: r[i] == (if s[i] == '-' then '+' else if s[i] == '_' then '/' else s[i])
    ensures '-' !in r && '_' !in r
  {
    seq(|s|, i requires 0 <= i < |s| => if s[i] == '-' then '+' else if s[i] == '_' then '/' else s[i])
  }

  /** Undoing the URL-safe form gives back any text that had no `-` or `_`
      of its own, which base64 text never has. */
  lemma {:induction false} FromUrlSafeOfToUrlSafe(s: string)
    requires '-' !in s && '_' !in s
    ensures FromUrlSafe(ToUrlSafe(s)) == s
  {
    var u := ToUrlSafe(s);
    var t := FromUrlSafe(u);
    forall i | 0 <= i < |s|
      ensures t[i] == s[i]
    {
      assert s[i] != '-' && s[i] != '_';
    }
  }

  /** The text of `s` padded with `=` to a multiple of four characters. */
  function Padded(s: string): (r: string)
    ensures |r| % 4 == 0
    ensures |s| <= |r| < |s| + 4 && r[..|s|] == s
    ensures forall i | |s| <= i < |r| :: r[i] == '='
  {
    s + Equals(if |s| % 4 == 0 then 0 else 4 - |s| % 4)
  }

  /** `while (b64.length % 4) b64 += '='`. */
  method PadToQuad(s: string) returns (r: string)
    ensures r == Padded(s)
  {
    r := s;
    while |r| % 4 != 0
      invariant |s| <= |r| <= |Padded(s)|
      invariant r == s + Equals(|r| - |s|)
      decreases |Padded(s)| - |r|
    {
      r := r + "=";
      assert Equals(|r| - |s|) == Equals(|r| - 1 - |s|) + "=";
    }
  }

  /** The path segment `makeThumbUrl` makes of a Dropbox path. */
  function ThumbKey(pathLower: string): string
  {
    StripTrailing(ToUrlSafe(Base64Encode(Encode(pathLower))), '=')
  }

  /** The path the thumbnail route decodes from its `:b64` parameter, with
      `None` where the parameter is not base64 text. */
  function PathOfThumbKey(b64: string): Option<string>
  {
    match Base64Decode(Padded(FromUrlSafe(b64)))
    case None => None
    case Some(bs) => Some(DecodeLenient(bs))
  }

  /** Lines 374-375 of the thumbnail route. */
  method DecodeThumbKey(b64: string) returns (path: Option<string>)
    ensures path == PathOfThumbKey(b64)
  {
    var padded := PadToQuad(FromUrlSafe(b64));
    match Base64Decode(padded) {
      case None => path := None;
      case Some(bs) => path := Some(DecodeLenient(bs));
    }
  }

  /* -------------------------- encodeURIComponent --------------------------- */

  /** The characters `encodeURIComponent` leaves alone. */
  predicate IsUnreserved(c: char)
  {
    IsAlnum(c) || c in "-_.!~*'()"
  }

  function HexUpper(v: nat): (c: char)
    requires v < 16
    ensures HexDigit(c) == Some(v)
  {
    if v < 10 then ('0' as int + v) as char else ('A' as int + v - 10) as char
  }

  /** `%XY` for every byte. */
  function Escapes(bs: seq<Byte>): (r: string)
    ensures |r| == 3 * |bs|
  {
    if bs == [] then [] else ['%', HexUpper(bs[0] / 16), HexUpper(bs[0] % 16)] + Escapes(bs[1..])
  }

  /** `encodeURIComponent(s)`: every reserved character becomes the
      escapes of its UTF-8 bytes. */
  function EncodeUriComponent(s: string): string
  {
    if s == [] then []
    else (if IsUnreserved(s[0]) then [s[0]] else Escapes(EncodeChar(s[0])))
         + EncodeUriComponent(s[1..])
  }

  /** `makeThumbUrl(path_lower, size)`. */
  function MakeThumbUrl(pathLower: string, size: string): string
  {
    THUMB_ROUTE + ThumbKey(pathLower) + "?s=" + EncodeUriComponent(size)
  }

  /* -------------------------------- lemmas -------------------------------- */

  /** The arithmetic of one full group. */
  lemma {:induction false} GroupOfPack3(b0: Byte, b1: Byte, b2: Byte)
    ensures (b0 / 4) * 4 + ((b0 % 4) * 16 + b1 / 16) / 16 == b0
    ensures (((b0 % 4) * 16 + b1 / 16) % 16) * 16 + ((b1 % 16) * 4 + b2 / 64) / 4 == b1
    ensures (((b1 % 16) * 4 + b2 / 64) % 4) * 64 + b2 % 64 == b2
  {
  }

  lemma {:induction false} PackOfGroup(bs: seq<Byte>)
    requires |bs| >= 3
    ensures |Pack(bs)| >= 4 && Group(Pack(bs)[..4]) == bs[..3] && Pack(bs)[4..] == Pack(bs[3..])
  {
    GroupOfPack3(bs[0], bs[1], bs[2]);
  }

  lemma {:induction false} UnpackOfPack(bs: seq<Byte>)
    ensures Unpack(Pack(bs)) == bs
    decreases |bs|
  {
    if |bs| == 1 {
      assert (bs[0] / 4) * 4 + ((bs[0] % 4) * 16) / 16 == bs[0];
    } else if |bs| == 2 {
      GroupOfPack3(bs[0], bs[1], 0);
    } else if |bs| >= 3 {
      var vs := Pack(bs);
      PackOfGroup(bs);
      if |bs| == 3 {
        assert vs == vs[..4];
      } else {
        UnpackOfPack(bs[3..]);
      }
      assert bs == bs[..3] + bs[3..];
    }
  }

  /** A sextet's character reads back as the sextet. */
  lemma {:induction false} SextetsOfChars(vs: seq<Sextet>)
    ensures InAlphabet(Chars(vs)) && SextetsOf(Chars(vs)) == vs
  {
    forall i | 0 <= i < |vs|
      ensures SextetValue(Chars(vs)[i]) == Some(vs[i])
    {
      SextetValueOfChar(vs[i]);
    }
  }

  /** Decoding the body of an encoding gives the bytes back. */
  lemma {:induction false} Base64BodyRoundTrip(bs: seq<Byte>)
    ensures InAlphabet(Base64Body(bs)) && Unpack(SextetsOf(Base64Body(bs))) == bs
  {
    SextetsOfChars(Pack(bs));
    UnpackOfPack(bs);
  }

  lemma {:induction false} StripTrailingOfPadding(body: string, c: char, k: nat)
    requires body == [] || body[|body| - 1] != c
    ensures StripTrailing(body + seq(k, _ => c), c) == body
    decreases k
  {
    if k == 0 {
      assert body + seq(k, _ => c) == body;
    } else {
      var s := body + seq(k, _ => c);
      assert s[..|s| - 1] == body + seq(k - 1, _ => c);
      StripTrailingOfPadding(body, c, k - 1);
    }
  }

  /** The body of an encoding followed by any padding decodes to the
      bytes. */
  lemma {:induction false} Base64DecodeOfBody(bs: seq<Byte>, k: nat)
    ensures Base64Decode(Base64Body(bs) + Equals(k)) == Some(bs)
  {
    var body := Base64Body(bs);
    assert Equals(k) == seq(k, _ => '=');
    StripTrailingOfPadding(body, '=', k);
    Base64BodyRoundTrip(bs);
  }

  /** `Buffer.from(buf.toString('base64'), 'base64')` is `buf`. */
  lemma {:induction false} Base64RoundTrip(bs: seq<Byte>)
    ensures Base64Decode(Base64Encode(bs)) == Some(bs)
  {
    Base64DecodeOfBody(bs, if |bs| % 3 == 0 then 0 else 3 - |bs| % 3);
  }

  /** The segment is the URL-safe form of the encoding's body. */
  lemma {:induction false} ThumbKeyIsBody(pathLower: string)
    ensures ThumbKey(pathLower) == ToUrlSafe(Base64Body(Encode(pathLower)))
  {
    var bs := Encode(pathLower);
    var body := Base64Body(bs);
    var k := if |bs| % 3 == 0 then 0 else 3 - |bs| % 3;
    assert ToUrlSafe(body + Equals(k)) == ToUrlSafe(body) + seq(k, _ => '=');
    StripTrailingOfPadding(ToUrlSafe(body), '=', k);
  }

  predicate IsUrlSafeChar(c: char)
  {
    IsAlnum(c) || c == '-' || c == '_'
  }

  /** A thumbnail URL's segment holds only letters, digits, `-` and `_`:
      no `/`, `?`, `%` or `=`, so the route parameter is the segment as it
      was made. */
  lemma {:induction false} ThumbKeyIsUrlSafe(pathLower: string)
    ensures forall i | 0 <= i < |ThumbKey(pathLower)| :: IsUrlSafeChar(ThumbKey(pathLower)[i])
  {
    ThumbKeyIsBody(pathLower);
  }

  /** The thumbnail route recovers the path `makeThumbUrl` was given. */
  lemma {:induction false} ThumbKeyRoundTrip(pathLower: string)
    ensures PathOfThumbKey(ThumbKey(pathLower)) == Some(pathLower)
  {
    var bs := Encode(pathLower);
    var body := Base64Body(bs);
    ThumbKeyIsBody(pathLower);
    assert FromUrlSafe(ToUrlSafe(body)) == body;
    var p := if |body| % 4 == 0 then 0 else 4 - |body| % 4;
    assert Padded(body) == body + Equals(p);
    Base64DecodeOfBody(bs, p);
    DecodeOfEncode(pathLower);
  }

  /** The part of a thumbnail URL before its `?` is the route and the
      segment. */
  lemma {:induction false} ThumbUrlPath(pathLower: string, size: string)
    ensures BeforeFirst(MakeThumbUrl(pathLower, size), '?') == THUMB_ROUTE + ThumbKey(pathLower)
  {
    var k := ThumbKey(pathLower);
    var seg := THUMB_ROUTE + k;
    ThumbKeyIsUrlSafe(pathLower);
    forall i | 0 <= i < |seg|
      ensures seg[i] != '?'
    {
      if i >= |THUMB_ROUTE| {
        assert seg[i] == k[i - |THUMB_ROUTE|];
      }
    }
    assert MakeThumbUrl(pathLower, size) == seg + ['?'] + ("s=" + EncodeUriComponent(size));
    BeforeFirstOfJoin(seg, '?', "s=" + EncodeUriComponent(size));
  }

  /** Different paths get different thumbnail URLs, whatever the sizes. */
  lemma {:induction false} MakeThumbUrlInjective(p1: string, p2: string, s1: string, s2: string)
    requires MakeThumbUrl(p1, s1) == MakeThumbUrl(p2, s2)
    ensures p1 == p2
  {
    ThumbUrlPath(p1, s1);
    ThumbUrlPath(p2, s2);
    assert ThumbKey(p1) == (THUMB_ROUTE + ThumbKey(p1))[|THUMB_ROUTE|..];
    assert ThumbKey(p2) == (THUMB_ROUTE + ThumbKey(p2))[|THUMB_ROUTE|..];
    ThumbKeyRoundTrip(p1);
    ThumbKeyRoundTrip(p2);
  }

  lemma {:induction false} EscapedBytesOfEscape(b: Byte, tail: string)
    ensures EscapedBytes(['%', HexUpper(b / 16), HexUpper(b % 16)] + tail) == Prepend([b], EscapedBytes(tail))
  {
    var s := ['%', HexUpper(b / 16), HexUpper(b % 16)] + tail;
    assert s[0] == '%' && s[1] == HexUpper(b / 16) && s[2] == HexUpper(b % 16);
    assert s[3..] == tail;
  }

  /** The escapes of the first byte, in front of the rest. */
  lemma {:induction false} EscapesCons(bs: seq<Byte>, t: string)
    requires bs != []
    ensures Escapes(bs) + t == ['%', HexUpper(bs[0] / 16), HexUpper(bs[0] % 16)] + (Escapes(bs[1..]) + t)
  {
  }

  lemma {:induction false} EscapedBytesOfEscapesStep(bs: seq<Byte>, t: string)
    requires bs != []
    requires EscapedBytes(Escapes(bs[1..]) + t) == Prepend(bs[1..], EscapedBytes(t))
    ensures EscapedBytes(Escapes(bs) + t) == Prepend(bs, EscapedBytes(t))
  {
    EscapesCons(bs, t);
    EscapedBytesOfEscape(bs[0], Escapes(bs[1..]) + t);
    PrependCons(bs, EscapedBytes(t));
  }

  lemma {:induction false} EscapedBytesOfEscapes(bs: seq<Byte>, t: string)
    ensures EscapedBytes(Escapes(bs) + t) == Prepend(bs, EscapedBytes(t))
  {
    if bs != [] {
      EscapedBytesOfEscapes(bs[1..], t);
      EscapedBytesOfEscapesStep(bs, t);
    } else {
      EscapedBytesOfNoEscapes(t);
    }
  }

  lemma {:induction false} EscapedBytesOfNoEscapes(t: string)
    ensures EscapedBytes(Escapes([]) + t) == Prepend([], EscapedBytes(t))
  {
    assert Escapes([]) + t == t;
    if EscapedBytes(t).Some? {
      assert [] + EscapedBytes(t).value == EscapedBytes(t).value;
    }
  }

  /** The bytes `decodeURIComponent` reads from an encoded string are the
      string's own UTF-8 bytes. */
  lemma {:induction false} EscapedBytesOfEncoded(s: string)
    ensures EscapedBytes(EncodeUriComponent(s)) == Some(Encode(s))
  {
    if s != [] {
      var tail := EncodeUriComponent(s[1..]);
      EscapedBytesOfEncoded(s[1..]);
      if IsUnreserved(s[0]) {
        var e := [s[0]] + tail;
        assert e[0] == s[0] && e[1..] == tail;
        assert s[0] != '%';
      } else {
        EscapedBytesOfEscapes(EncodeChar(s[0]), tail);
      }
    }
  }

  /** `decodeURIComponent(encodeURIComponent(s)) === s`. */
  lemma {:induction false} UriComponentRoundTrip(s: string)
    ensures DecodeUriComponent(EncodeUriComponent(s)) == Some(s)
  {
    EscapedBytesOfEncoded(s);
    DecodeOfEncode(s);
  }

  /** A size made of unreserved characters, such as `w640h480`, is put in
      the query as it is. */
  lemma {:induction false} EncodeUriComponentUnreserved(s: string)
    requires forall i | 0 <= i < |s| :: IsUnreserved(s[i])
    ensures EncodeUriComponent(s) == s
  {
    if s != [] {
      EncodeUriComponentUnreserved(s[1..]);
      assert [s[0]] + s[1..] == s;
    }
  }
}
