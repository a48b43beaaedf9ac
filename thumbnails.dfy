/** Negotiated thumbnails (dropboxRoutes.js lines 299-369). A thumbnail
    is fetched as JPEG from Dropbox's `get_thumbnail_v2` and cached for
    3.5 hours under `thumb:jpeg:<size>:<path>`; when that fails, the sizes
    `w640h480`, `w480h320` and `w256h256` are tried in turn. The JPEG is
    then transcoded to the format the `Accept` header prefers (AVIF over
    WebP over JPEG) when the `sharp` library is present and succeeds, and
    the result is cached under `thumb:<mime>:<size>:<path>`.

    Dropbox is the oracle `api(path, size)`, `None` standing for a thrown
    error or a status other than 200; fetching the access token is not
    modelled, so it never fails here; `sharp` is the
    flag `sharp` and the oracle `transcode(buf, mime)`, `None` standing for
    a thrown error. The shared `_CACHE` is split into the JPEG cache and
    the negotiated cache: their keys never coincide (`BaseKeysDiffer`).

    The negotiated cache stores the bytes without their media type, and a
    hit reports the type asked for: when the bytes are the JPEG fallback,
    a repeated request labels them wrongly (`StaleMimeAsWritten`). The
    corrected fetch stores the type with the bytes. */
module Thumbnails {

  import opened Wrappers
  import opened Text
  import opened Utf8
  import opened Ttl
  import opened ThumbPath

  type Bytes = seq<Byte>

  /** `3.5 * 60 * 60 * 1000`: both thumbnail caches keep an entry 3.5 h. */
  const THUMB_TTL_MS: int := 12600000

  /** The sizes tried, in order, when the requested one fails. */
  const FALLBACKS: seq<string> := [DEFAULT_THUMB, "w480h320", "w256h256"]

  datatype Mime = Avif | Webp | Jpeg

  function MimeName(m: Mime): string
  {
    match m
    case Avif => "image/avif"
    case Webp => "image/webp"
    case Jpeg => "image/jpeg"
  }

  /** `wantMimeFromAccept(accept)`. */
  function WantMimeFromAccept(accept: string): Mime
  {
    var a := Lower(accept);
    if Contains(a, "image/avif") then Avif
    else if Contains(a, "image/webp") then Webp
    else Jpeg
  }

  /** `maybeTranscode(buf, wantMime)`: the bytes and the type they are in. */
  function MaybeTranscode(sharp: bool, transcode: (Bytes, Mime) -> Option<Bytes>, buf: Bytes,
                          want: Mime): (r: (Bytes, Mime))
    ensures r.1 == Jpeg ==> r.0 == buf
    ensures r.1 != Jpeg ==> r.1 == want && sharp && transcode(buf, want) == Some(r.0)
    ensures sharp && want != Jpeg && transcode(buf, want).Some? ==> r == (transcode(buf, want).value, want)
  {
    if !sharp || want == Jpeg then (buf, Jpeg)
    else match transcode(buf, want)
      case Some(out) => (out, want)
      case None => (buf, Jpeg)
  }

  /* ------------------------------ JPEG cache ------------------------------- */

  type Cache<V> = map<string, Entry<V>>

  function BaseKey(size: string, path: string): string
  {
    "thumb:jpeg:" + size + ":" + path
  }

  function NegotiatedKey(want: Mime, size: string, path: string): string
  {
    "thumb:" + MimeName(want) + ":" + size + ":" + path
  }

  /** The status of a size for a path: what the cache or Dropbox offers. */
  predicate Available(m: Cache<Bytes>, path: string, size: string,
                      api: (string, string) -> Option<Bytes>, now: int)
  {
    Live(m, BaseKey(size, path), now, true) || api(path, size).Some?
  }

  /** The bytes an available size yields: the live entry wins. */
  function Offered(m: Cache<Bytes>, path: string, size: string,
                   api: (string, string) -> Option<Bytes>, now: int): Bytes
    requires Available(m, path, size, api, now)
  {
    if Live(m, BaseKey(size, path), now, true) then m[BaseKey(size, path)].value
    else api(path, size).value
  }

  /** `fetchBaseJpeg(path, size)` on the cache `m`: the result (`None` for a
      throw) and the new cache. */
  function BaseJpeg(m: Cache<Bytes>, path: string, size: string,
                    api: (string, string) -> Option<Bytes>, now: int): (r: (Option<Bytes>, Cache<Bytes>))
    ensures r.0.Some? <==> Available(m, path, size, api, now)
    ensures r.0.Some? ==> r.0.value == Offered(m, path, size, api, now)
  {
    var key := BaseKey(size, path);
    var (hit, m1) := Read(m, key, now, true);
    if hit.Some? then (hit, m1)
    else match api(path, size)
      case None => (None, m1)
      case Some(b) => (Some(b), Write(m1, key, b, THUMB_TTL_MS, now))
  }

  /** The sizes tried one after the other until one succeeds. */
  function FirstBase(m: Cache<Bytes>, path: string, sizes: seq<string>,
                     api: (string, string) -> Option<Bytes>, now: int): (Option<Bytes>, Cache<Bytes>)
    decreases |sizes|
  {
    if sizes == [] then (None, m)
    else
      var (b, m1) := BaseJpeg(m, path, sizes[0], api, now);
      if b.Some? then (b, m1) else FirstBase(m1, path, sizes[1..], api, now)
  }

  /** The requested size, then the fallbacks. */
  function Fetched(m: Cache<Bytes>, path: string, size: string,
                   api: (string, string) -> Option<Bytes>, now: int): (Option<Bytes>, Cache<Bytes>)
  {
    var (b, m1) := BaseJpeg(m, path, size, api, now);
    if b.Some? then (b, m1) else FirstBase(m1, path, FALLBACKS, api, now)
  }

  /** `fetchBaseJpeg`. */
  method FetchBaseJpeg(cache: TtlCache<Bytes>, path: string, size: string,
                       api: (string, string) -> Option<Bytes>, now: int)
    returns (r: Option<Bytes>)
    requires cache.zeroNeverExpires
    modifies cache
    ensures (r, cache.entries) == BaseJpeg(old(cache.entries), path, size, api, now)
  {
    var key := BaseKey(size, path);
    var hit := cache.Get(key, now);
    if hit.Some? {
      return hit;
    }
    var resp := api(path, size);
    if resp.None? {
      return None;
    }
    cache.Set(key, resp.value, THUMB_TTL_MS, now);
    r := resp;
  }

  lemma {:induction false} FirstBaseStep(m: Cache<Bytes>, path: string, sizes: seq<string>, i: nat,
                                         api: (string, string) -> Option<Bytes>, now: int)
    requires i < |sizes|
    ensures FirstBase(m, path, sizes[i..], api, now)
            == (var (b, m1) := BaseJpeg(m, path, sizes[i], api, now);
                if b.Some? then (b, m1) else FirstBase(m1, path, sizes[i + 1..], api, now))
  {
    assert sizes[i..][1..] == sizes[i + 1..];
  }

  /** The `try` of lines 356-364: the requested size, then each fallback
      until one succeeds. */
  method FetchWithFallbacks(cache: TtlCache<Bytes>, path: string, size: string,
                            api: (string, string) -> Option<Bytes>, now: int)
    returns (b: Option<Bytes>)
    requires cache.zeroNeverExpires
    modifies cache
    ensures (b, cache.entries) == Fetched(old(cache.entries), path, size, api, now)
  {
    b := FetchBaseJpeg(cache, path, size, api, now);
    if b.None? {
      ghost var m0 := cache.entries;
      var i := 0;
      while i < |FALLBACKS| && b.None?
        invariant 0 <= i <= |FALLBACKS|
        invariant b.None? ==> FirstBase(m0, path, FALLBACKS, api, now)
                              == FirstBase(cache.entries, path, FALLBACKS[i..], api, now)
        invariant b.Some? ==> (b, cache.entries) == FirstBase(m0, path, FALLBACKS, api, now)
      {
        FirstBaseStep(cache.entries, path, FALLBACKS, i, api, now);
        b := FetchBaseJpeg(cache, path, FALLBACKS[i], api, now);
        i := i + 1;
      }
      if b.None? {
        assert FALLBACKS[i..] == [];
      }
    }
  }

  /* --------------------------- negotiated fetch ---------------------------- */

  /** What a request is answered with: the bytes (`None` for `buf: null`)
      and the media type reported. */
  datatype Served = Served(buf: Option<Bytes>, mime: Mime)

  /** The miss path shared by both versions: fetch the JPEG (with the
      fallbacks) and transcode it. */
  function Produced(base: Cache<Bytes>, path: string, size: string, want: Mime,
                    api: (string, string) -> Option<Bytes>, sharp: bool,
                    transcode: (Bytes, Mime) -> Option<Bytes>, now: int): (Served, Cache<Bytes>)
  {
    var (b, base1) := Fetched(base, path, size, api, now);
    match b
    case None => (Served(None, want), base1)
    case Some(jpeg) =>
      var (out, mime) := MaybeTranscode(sharp, transcode, jpeg, want);
      (Served(Some(out), mime), base1)
  }

  /** `fetchThumbNegotiated(path, size, accept)` as written: the cache
      entry holds the bytes only, and a hit reports the wanted type. */
  function NegotiatedAsWritten(base: Cache<Bytes>, thumbs: Cache<Bytes>, path: string, size: string,
                               accept: string, api: (string, string) -> Option<Bytes>, sharp: bool,
                               transcode: (Bytes, Mime) -> Option<Bytes>, now: int)
    : (Served, Cache<Bytes>, Cache<Bytes>)
  {
    var want := WantMimeFromAccept(accept);
    var key := NegotiatedKey(want, size, path);
    var (hit, thumbs1) := Read(thumbs, key, now, true);
    if hit.Some? then (Served(hit, want), base, thumbs1)
    else
      var (served, base1) := Produced(base, path, size, want, api, sharp, transcode, now);
      if served.buf.None? then (served, base1, thumbs1)
      else (served, base1, Write(thumbs1, key, served.buf.value, THUMB_TTL_MS, now))
  }

  /** A negotiated cache entry with its media type. */
  datatype Thumb = Thumb(buf: Bytes, mime: Mime)

  /** The corrected fetch: the entry records the type of its bytes, and a
      hit reports that type. */
  function Negotiated(base: Cache<Bytes>, thumbs: Cache<Thumb>, path: string, size: string,
                      accept: string, api: (string, string) -> Option<Bytes>, sharp: bool,
                      transcode: (Bytes, Mime) -> Option<Bytes>, now: int)
    : (Served, Cache<Bytes>, Cache<Thumb>)
  {
    var want := WantMimeFromAccept(accept);
    var key := NegotiatedKey(want, size, path);
    var (hit, thumbs1) := Read(thumbs, key, now, true);
    if hit.Some? then (Served(Some(hit.value.buf), hit.value.mime), base, thumbs1)
    else
      var (served, base1) := Produced(base, path, size, want, api, sharp, transcode, now);
      if served.buf.None? then (served, base1, thumbs1)
      else (served, base1, Write(thumbs1, key, Thumb(served.buf.value, served.mime), THUMB_TTL_MS, now))
  }

  /** The miss path: fetch with fallbacks, then transcode. */
  method Produce(base: TtlCache<Bytes>, path: string, size: string, want: Mime,
                 api: (string, string) -> Option<Bytes>, sharp: bool,
                 transcode: (Bytes, Mime) -> Option<Bytes>, now: int)
    returns (served: Served)
    requires base.zeroNeverExpires
    modifies base
    ensures (served, base.entries) == Produced(old(base.entries), path, size, want, api, sharp, transcode, now)
  {
    var b := FetchWithFallbacks(base, path, size, api, now);
    if b.None? {
      return Served(None, want);
    }
    var (out, mime) := MaybeTranscode(sharp, transcode, b.value, want);
    served := Served(Some(out), mime);
  }

  /** `fetchThumbNegotiated` as written (lines 349-369). */
  method FetchThumbNegotiatedAsWritten(base: TtlCache<Bytes>, thumbs: TtlCache<Bytes>, path: string,
                                       size: string, accept: string,
                                       api: (string, string) -> Option<Bytes>, sharp: bool,
                                       transcode: (Bytes, Mime) -> Option<Bytes>, now: int)
    returns (served: Served)
    requires base != thumbs && base.zeroNeverExpires && thumbs.zeroNeverExpires
    modifies base, thumbs
    ensures (served, base.entries, thumbs.entries)
            == NegotiatedAsWritten(old(base.entries), old(thumbs.entries), path, size, accept,
                                   api, sharp, transcode, now)
  {
    var want := WantMimeFromAccept(accept);
    var key := NegotiatedKey(want, size, path);
    var hit := thumbs.Get(key, now);
    if hit.Some? {
      return Served(hit, want);
    }
    served := Produce(base, path, size, want, api, sharp, transcode, now);
    if served.buf.Some? {
      thumbs.Set(key, served.buf.value, THUMB_TTL_MS, now);
    }
  }

  /** The corrected `fetchThumbNegotiated`. */
  method FetchThumbNegotiated(base: TtlCache<Bytes>, thumbs: TtlCache<Thumb>, path: string,
                              size: string, accept: string,
                              api: (string, string) -> Option<Bytes>, sharp: bool,
                              transcode: (Bytes, Mime) -> Option<Bytes>, now: int)
    returns (served: Served)
    requires base.zeroNeverExpires && thumbs.zeroNeverExpires
    modifies base, thumbs
    ensures (served, base.entries, thumbs.entries)
            == Negotiated(old(base.entries), old(thumbs.entries), path, size, accept,
                          api, sharp, transcode, now)
  {
    var want := WantMimeFromAccept(accept);
    var key := NegotiatedKey(want, size, path);
    var hit := thumbs.Get(key, now);
    if hit.Some? {
      return Served(Some(hit.value.buf), hit.value.mime);
    }
    served := Produce(base, path, size, want, api, sharp, transcode, now);
    if served.buf.Some? {
      thumbs.Set(key, Thumb(served.buf.value, served.mime), THUMB_TTL_MS, now);
    }
  }

  /* -------------------------------- lemmas -------------------------------- */

  /** Each named type is recognised from its own name. */
  lemma {:induction false} WantMimeOfName(m: Mime)
    ensures WantMimeFromAccept(MimeName(m)) == m
  {
    var n := MimeName(m);
    assert Lower(n) == n;
    assert Contains(n, n) by { assert OccursAt(n, n, 0); }
    if m != Avif {
      assert !OccursAt(n, "image/avif", 0);
    }
    if m == Jpeg {
      assert !OccursAt(n, "image/webp", 0);
    }
  }

  lemma {:induction false} ContainsLowerName(pre: string, m: Mime, post: string)
    ensures Contains(Lower(pre + MimeName(m) + post), MimeName(m))
  {
    LowerConcat(pre + MimeName(m), post);
    LowerConcat(pre, MimeName(m));
    assert Lower(MimeName(m)) == MimeName(m);
    ContainsMiddle(Lower(pre), MimeName(m), Lower(post));
  }

  /** A header that lists `image/avif` anywhere gets AVIF, and one that
      lists `image/webp` gets WebP or AVIF, never JPEG. */
  lemma {:induction false} WantMimeOfListed(pre: string, post: string)
    ensures WantMimeFromAccept(pre + MimeName(Avif) + post) == Avif
    ensures WantMimeFromAccept(pre + MimeName(Webp) + post) != Jpeg
  {
    ContainsLowerName(pre, Avif, post);
    ContainsLowerName(pre, Webp, post);
  }

  /** The header is read without regard to case. */
  lemma {:induction false} WantMimeIgnoresCase(accept: string)
    ensures WantMimeFromAccept(Lower(accept)) == WantMimeFromAccept(accept)
  {
    LowerIdempotent(accept);
  }

  /** The two key families of the shared cache never meet. */
  lemma {:induction false} BaseKeysDiffer(s1: string, p1: string, m: Mime, s2: string, p2: string)
    ensures BaseKey(s1, p1) != NegotiatedKey(m, s2, p2)
  {
    assert BaseKey(s1, p1)[6] == 'j';
    assert NegotiatedKey(m, s2, p2)[6] == 'i';
  }

  /** A JPEG fetched from Dropbox is served from the cache, without a call,
      for the next 3.5 hours. */
  lemma {:induction false} BaseJpegCached(m: Cache<Bytes>, path: string, size: string,
                                          api1: (string, string) -> Option<Bytes>,
                                          api2: (string, string) -> Option<Bytes>, now: int, later: int)
    requires !Live(m, BaseKey(size, path), now, true) && api1(path, size).Some?
    requires now <= later <= now + THUMB_TTL_MS
    ensures var (b, m1) := BaseJpeg(m, path, size, api1, now);
            b == api1(path, size) && BaseJpeg(m1, path, size, api2, later) == (b, m1)
  {
  }

  /** A failed try evicts at most the entry it missed, so the sizes not yet
      tried keep their live entries. */
  lemma {:induction false} FailedTryKeepsOthers(m: Cache<Bytes>, path: string, size: string,
                                                other: string, api: (string, string) -> Option<Bytes>,
                                                now: int)
    requires BaseJpeg(m, path, size, api, now).0.None?
    ensures Available(BaseJpeg(m, path, size, api, now).1, path, other, api, now)
            == Available(m, path, other, api, now)
    ensures Available(m, path, other, api, now) ==>
              Offered(BaseJpeg(m, path, size, api, now).1, path, other, api, now)
              == Offered(m, path, other, api, now)
  {
    ReadKeepsLiveness(m, BaseKey(size, path), now, true, BaseKey(other, path));
  }

  /** The fallback chain fails exactly when no size is available, and
      otherwise yields the bytes of the first available size. */
  lemma {:induction false} FirstBaseCorrect(m: Cache<Bytes>, path: string, sizes: seq<string>,
                                            api: (string, string) -> Option<Bytes>, now: int)
    ensures FirstBase(m, path, sizes, api, now).0.None? <==>
              forall i | 0 <= i < |sizes| :: !Available(m, path, sizes[i], api, now)
    ensures FirstBase(m, path, sizes, api, now).0.Some? ==>
              exists j | 0 <= j < |sizes| ::
                Available(m, path, sizes[j], api, now)
                && FirstBase(m, path, sizes, api, now).0.value == Offered(m, path, sizes[j], api, now)
                && forall i | 0 <= i < j :: !Available(m, path, sizes[i], api, now)
    decreases |sizes|
  {
    if sizes != [] {
      var (b, m1) := BaseJpeg(m, path, sizes[0], api, now);
      if b.None? {
        var rest := sizes[1..];
        FirstBaseCorrect(m1, path, rest, api, now);
        forall i | 0 <= i < |rest|
          ensures Available(m1, path, rest[i], api, now) == Available(m, path, rest[i], api, now)
          ensures Available(m, path, rest[i], api, now) ==>
                    Offered(m1, path, rest[i], api, now) == Offered(m, path, rest[i], api, now)
        {
          FailedTryKeepsOthers(m, path, sizes[0], rest[i], api, now);
        }
        if FirstBase(m, path, sizes, api, now).0.Some? {
          var j :| 0 <= j < |rest| && Available(m1, path, rest[j], api, now)
                   && FirstBase(m1, path, rest, api, now).0.value == Offered(m1, path, rest[j], api, now)
                   && forall i | 0 <= i < j :: !Available(m1, path, rest[i], api, now);
          assert sizes[j + 1] == rest[j];
          forall i | 0 <= i < j + 1
            ensures !Available(m, path, sizes[i], api, now)
          {
            if i > 0 {
              assert sizes[i] == rest[i - 1];
            }
          }
        } else {
          forall i | 0 <= i < |sizes|
            ensures !Available(m, path, sizes[i], api, now)
          {
            if i > 0 {
              assert sizes[i] == rest[i - 1];
            }
          }
        }
      } else {
        assert Available(m, path, sizes[0], api, now);
      }
    }
  }

  /** When the requested size is available, the fallbacks are not tried:
      the answer is that size's JPEG, transcoded when possible. */
  lemma {:induction false} ProducedFromRequested(base: Cache<Bytes>, path: string, size: string,
                                                 want: Mime, api: (string, string) -> Option<Bytes>,
                                                 sharp: bool, transcode: (Bytes, Mime) -> Option<Bytes>,
                                                 now: int)
    requires Available(base, path, size, api, now)
    ensures Produced(base, path, size, want, api, sharp, transcode, now).0
            == (var (out, mime) := MaybeTranscode(sharp, transcode, Offered(base, path, size, api, now), want);
                Served(Some(out), mime))
  {
  }

  /** Nothing is served only when neither the requested size nor any
      fallback is available. */
  lemma {:induction false} ProducedNothing(base: Cache<Bytes>, path: string, size: string,
                                           want: Mime, api: (string, string) -> Option<Bytes>,
                                           sharp: bool, transcode: (Bytes, Mime) -> Option<Bytes>,
                                           now: int)
    ensures Produced(base, path, size, want, api, sharp, transcode, now).0.buf.None? <==>
              !Available(base, path, size, api, now)
              && forall i | 0 <= i < |FALLBACKS| :: !Available(base, path, FALLBACKS[i], api, now)
  {
    var (b, base1) := BaseJpeg(base, path, size, api, now);
    if b.None? {
      FirstBaseCorrect(base1, path, FALLBACKS, api, now);
      forall i | 0 <= i < |FALLBACKS|
        ensures Available(base1, path, FALLBACKS[i], api, now) == Available(base, path, FALLBACKS[i], api, now)
      {
        FailedTryKeepsOthers(base, path, size, FALLBACKS[i], api, now);
      }
    }
  }

  /** The defect: without `sharp`, a browser asking for AVIF first gets the
      JPEG labelled `image/jpeg`, and within the next 3.5 hours the very
      same bytes labelled `image/avif`. */
  lemma {:induction false} StaleMimeAsWritten(path: string, size: string, jpeg: Bytes, now: int)
    ensures var api := (p: string, s: string) => Some(jpeg);
            var transcode := (b: Bytes, m: Mime) => None;
            var (first, base1, thumbs1) :=
              NegotiatedAsWritten(map[], map[], path, size, "image/avif", api, false, transcode, now);
            var (second, _, _) :=
              NegotiatedAsWritten(base1, thumbs1, path, size, "image/avif", api, false, transcode, now);
            first == Served(Some(jpeg), Jpeg) && second == Served(Some(jpeg), Avif)
  {
    WantMimeOfName(Avif);
  }

  /** With the correction, a repeated request within 3.5 hours is answered
      exactly as the first one was, type included. */
  lemma {:induction false} NegotiatedRepeatStable(base: Cache<Bytes>, thumbs: Cache<Thumb>, path: string,
                                                  size: string, accept: string,
                                                  api: (string, string) -> Option<Bytes>,
                                                  api2: (string, string) -> Option<Bytes>, sharp: bool,
                                                  transcode: (Bytes, Mime) -> Option<Bytes>,
                                                  transcode2: (Bytes, Mime) -> Option<Bytes>,
                                                  now: int, later: int)
    requires !Live(thumbs, NegotiatedKey(WantMimeFromAccept(accept), size, path), now, true)
    requires now <= later <= now + THUMB_TTL_MS
    ensures var (first, base1, thumbs1) :=
              Negotiated(base, thumbs, path, size, accept, api, sharp, transcode, now);
            first.buf.Some? ==>
              Negotiated(base1, thumbs1, path, size, accept, api2, sharp, transcode2, later).0 == first
  {
  }

  /** With the correction, the type reported is the wanted one only when
      the bytes are the transcoder's output, and JPEG otherwise. */
  lemma {:induction false} NegotiatedMimeOfFetch(base: Cache<Bytes>, thumbs: Cache<Thumb>, path: string,
                                                 size: string, accept: string,
                                                 api: (string, string) -> Option<Bytes>, sharp: bool,
                                                 transcode: (Bytes, Mime) -> Option<Bytes>, now: int)
    requires !Live(thumbs, NegotiatedKey(WantMimeFromAccept(accept), size, path), now, true)
    ensures var (served, base1, _) := Negotiated(base, thumbs, path, size, accept, api, sharp, transcode, now);
            var (jpeg, _) := Fetched(base, path, size, api, now);
            (served.buf.Some? <==> jpeg.Some?)
            && (jpeg.Some? ==> served == (var (out, mime) := MaybeTranscode(sharp, transcode, jpeg.value,
                                                                           WantMimeFromAccept(accept));
                                          Served(Some(out), mime)))
  {
    var want := WantMimeFromAccept(accept);
    var key := NegotiatedKey(want, size, path);
    assert Read(thumbs, key, now, true).0.None?;
    assert Negotiated(base, thumbs, path, size, accept, api, sharp, transcode, now).0
           == Produced(base, path, size, want, api, sharp, transcode, now).0;
    var f := Fetched(base, path, size, api, now);
    if f.0.Some? {
      var t := MaybeTranscode(sharp, transcode, f.0.value, want);
      assert Produced(base, path, size, want, api, sharp, transcode, now).0 == Served(Some(t.0), t.1);
    }
  }
}
