/** `filenameFromLinkedImage(link)` (dropboxRoutes.js lines 181-197): the
    image file name a sidecar's `linked_image` field points at. The link
    is URL-ish text: odd Unicode spaces are turned into plain spaces, it
    is percent-decoded and trimmed, the `#fragment` is dropped, and then a
    `preview=` query value wins if it looks like a file name; otherwise
    the last `/` segment (without its query) is used. A result always ends
    in a dot and three or four ASCII letters or digits, and is trimmed and
    lower-cased. */
module LinkedImage {

  import opened Wrappers
  import opened Text
  import opened Uri

  /** `BAD_SPACES`: U+2000-U+200A, U+00A0, U+202F, U+205F and U+3000. */
  predicate IsBadSpace(c: char)
  {
    ('\U{2000}' <= c <= '\U{200A}') || c == '\U{00A0}' || c == '\U{202F}'
    || c == '\U{205F}' || c == '\U{3000}'
  }

  /** `replace(BAD_SPACES, ' ')`. */
  function ReplaceBadSpaces(s: string): (r: string)
    ensures |r| == |s|
    ensures forall i | 0 <= i < |s| :: r[i] == (if IsBadSpace(s[i]) then ' ' else s[i])
    ensures forall i | 0 <= i < |r| :: !IsBadSpace(r[i])
  {
    seq(|s|, i requires 0 <= i < |s| => if IsBadSpace(s[i]) then ' ' else s[i])
  }

  /** A dot `e - 1` characters from the end, followed by ASCII letters or
      digits only. */
  predicate ExtAt(s: string, e: nat)
  {
    1 <= e <= |s| && s[|s| - e] == '.' && forall i | |s| - e < i < |s| :: IsAlnum(s[i])
  }

  /** `/\.[a-z0-9]{3,4}$/i`: a dot, then three or four ASCII letters or
      digits, at the very end. */
  predicate HasExtension(s: string)
  {
    ExtAt(s, 4) || ExtAt(s, 5)
  }

  /** The candidate a `?` query offers: its `preview` value, when that is
      non-empty and looks like a file name. */
  function PreviewCandidate(decoded: string): (r: Option<string>)
    ensures r.Some? ==> HasExtension(r.value)
  {
    match IndexOf(decoded, '?')
    case None => None
    case Some(q) =>
      match QueryGet(decoded[q + 1..], "preview")
      case None => None
      case Some(pv) => if pv != [] && HasExtension(pv) then Some(pv) else None
  }

  /** The last `/` segment without its query, trimmed and lower-cased. */
  function LastSegment(decoded: string): string
  {
    Lower(Trim(BeforeFirst(AfterLast(decoded, '/'), '?')))
  }

  /** What is left to do once the link is decoded, trimmed and stripped
      of its fragment. */
  function FromDecoded(decoded: string): (r: Option<string>)
    ensures r.Some? ==> HasExtension(r.value) && IsLower(r.value) && Trimmed(r.value)
  {
    match PreviewCandidate(decoded)
    case Some(pv) =>
      CanonicalKeepsExtension(pv);
      Some(Lower(Trim(pv)))
    case None =>
      var clean := LastSegment(decoded);
      CanonicalForm(BeforeFirst(AfterLast(decoded, '/'), '?'));
      if HasExtension(clean) then Some(clean) else None
  }

  /** `filenameFromLinkedImage(link)`; `None` stands for `null`, which is
      also the answer to a missing or empty link and to a URIError. */
  function FilenameFromLinkedImage(link: Option<string>): (r: Option<string>)
    ensures r.Some? ==> HasExtension(r.value) && IsLower(r.value) && Trimmed(r.value)
    ensures link.None? || link == Some([]) ==> r.None?
  {
    match link
    case None => None
    case Some(l) =>
      if l == [] then None
      else match DecodeUriComponent(ReplaceBadSpaces(l))
        case None => None
        case Some(d) => FromDecoded(BeforeFirst(Trim(d), '#'))
  }

  /* -------------------------------- lemmas -------------------------------- */

  /** A trimmed, lower-cased string is in canonical form. */
  lemma {:induction false} CanonicalForm(s: string)
    ensures IsLower(Lower(Trim(s))) && Trimmed(Lower(Trim(s)))
  {
    LowerIdempotent(Trim(s));
    TrimResult(s);
    LowerKeepsTrimmed(Trim(s));
  }

  lemma {:induction false} ExtAtSuffix(s: string, t: string, e: nat)
    requires ExtAt(s, e) && e <= |t| <= |s| && t == s[|s| - |t|..]
    ensures ExtAt(t, e)
  {
    assert t[|t| - e] == s[|s| - e];
    forall i | |t| - e < i < |t|
      ensures IsAlnum(t[i])
    {
      assert t[i] == s[|s| - |t| + i];
    }
  }

  lemma {:induction false} ExtAtTrim(s: string, e: nat)
    requires ExtAt(s, e) && e >= 2
    ensures ExtAt(Trim(s), e)
  {
    var t := TrimStart(s);
    assert s[|s| - e] == '.';
    assert !IsSpace('.');
    assert |t| >= e;
    ExtAtSuffix(s, t, e);
    var last := t[|t| - 1];
    assert IsAlnum(last);
    assert !IsSpace(last);
    assert TrimEnd(t) == t;
  }

  lemma {:induction false} ExtAtLower(s: string, e: nat)
    requires ExtAt(s, e)
    ensures ExtAt(Lower(s), e)
  {
    var l := Lower(s);
    assert l[|l| - e] == LowerChar(s[|s| - e]);
  }

  /** Trimming and lower-casing keep a file extension. */
  lemma {:induction false} CanonicalKeepsExtension(s: string)
    requires HasExtension(s)
    ensures HasExtension(Lower(Trim(s)))
    ensures IsLower(Lower(Trim(s))) && Trimmed(Lower(Trim(s)))
  {
    CanonicalForm(s);
    if ExtAt(s, 4) {
      ExtAtTrim(s, 4);
      ExtAtLower(Trim(s), 4);
    } else {
      ExtAtTrim(s, 5);
      ExtAtLower(Trim(s), 5);
    }
  }

  lemma {:induction false} ReplaceBadSpacesPlain(s: string)
    requires forall i | 0 <= i < |s| :: !IsBadSpace(s[i])
    ensures ReplaceBadSpaces(s) == s
  {
  }

  /** When the link holds no escapes and no odd spaces, the parse goes
      straight to its trimmed, fragment-free text. */
  lemma {:induction false} FilenameOfPlainLink(l: string)
    requires l != [] && '%' !in l
    requires forall i | 0 <= i < |l| :: !IsBadSpace(l[i])
    ensures FilenameFromLinkedImage(Some(l)) == FromDecoded(BeforeFirst(Trim(l), '#'))
  {
    ReplaceBadSpacesPlain(l);
    DecodeUriComponentPlain(l);
  }

  /** A link that fails to decode yields `null` (the `catch` branch). */
  lemma {:induction false} FilenameOfUndecodable(l: string)
    requires DecodeUriComponent(ReplaceBadSpaces(l)).None?
    ensures FilenameFromLinkedImage(Some(l)) == None
  {
  }

  lemma {:induction false} NoPreviewWithoutQuery(d: string)
    requires '?' !in d
    ensures PreviewCandidate(d) == None
  {
  }

  lemma {:induction false} FromDecodedOfSegment(d: string)
    requires PreviewCandidate(d) == None
    ensures FromDecoded(d) == (if HasExtension(LastSegment(d)) then Some(LastSegment(d)) else None)
  {
  }

  lemma {:induction false} FromDecodedOfPreview(d: string, pv: string)
    requires PreviewCandidate(d) == Some(pv)
    ensures FromDecoded(d) == Some(Lower(Trim(pv)))
  {
  }

  lemma {:induction false} LastSegmentOfPath(dir: string, name: string)
    requires '?' !in name && '/' !in name && Trimmed(name)
    ensures LastSegment(dir + "/" + name) == Lower(name)
  {
    assert dir + "/" + name == dir + ['/'] + name;
    AfterLastOfJoin(dir, '/', name);
    BeforeFirstWithout(name, '?');
    TrimOfTrimmed(name);
  }

  /** Without a query, the last path segment is the file name: a path
      `dir/name` gives `name` lower-cased. */
  lemma {:induction false} FromDecodedLastSegment(dir: string, name: string)
    requires '?' !in dir && '?' !in name && '/' !in name
    requires HasExtension(name) && Trimmed(name)
    ensures FromDecoded(dir + "/" + name) == Some(Lower(name))
  {
    var d := dir + "/" + name;
    assert '?' !in d;
    NoPreviewWithoutQuery(d);
    FromDecodedOfSegment(d);
    LastSegmentOfPath(dir, name);
    CanonicalKeepsExtension(name);
    TrimOfTrimmed(name);
  }

  /** A path without an extension and without a query gives `null`. */
  lemma {:induction false} FromDecodedNoExtension(dir: string, name: string)
    requires '?' !in dir && '?' !in name && '/' !in name
    requires !HasExtension(Lower(name)) && Trimmed(name)
    ensures FromDecoded(dir + "/" + name) == None
  {
    var d := dir + "/" + name;
    assert '?' !in d;
    NoPreviewWithoutQuery(d);
    FromDecodedOfSegment(d);
    LastSegmentOfPath(dir, name);
  }

  lemma {:induction false} PreviewOfQuery(path: string, name: string, rest: string)
    requires '?' !in path
    requires name != [] && '&' !in name && '+' !in name && '%' !in name
    requires HasExtension(name)
    requires rest == [] || rest[0] == '&'
    ensures PreviewCandidate(path + "?preview=" + name + rest) == Some(name)
  {
    var q := "preview" + "=" + name + rest;
    var d := path + ['?'] + q;
    assert path + "?preview=" + name + rest == d;
    assert d[|path|] == '?';
    assert IndexOf(d, '?') == Some(|path|) by {
      assert d[..|path|] == path;
    }
    assert d[|path| + 1..] == q;
    QueryGetFirst("preview", name, rest);
  }

  /** A `preview=` value with an extension wins over the path. */
  lemma {:induction false} FromDecodedPreview(path: string, name: string, rest: string)
    requires '?' !in path
    requires name != [] && '&' !in name && '+' !in name && '%' !in name
    requires HasExtension(name) && Trimmed(name)
    requires rest == [] || rest[0] == '&'
    ensures FromDecoded(path + "?preview=" + name + rest) == Some(Lower(name))
  {
    PreviewOfQuery(path, name, rest);
    FromDecodedOfPreview(path + "?preview=" + name + rest, name);
    TrimOfTrimmed(name);
  }

  /** End to end: a plain link `dir/name` (no escapes, odd spaces,
      fragment or query, nothing to trim) names `name`, lower-cased. */
  lemma {:induction false} FilenameOfPlainPath(dir: string, name: string)
    requires '%' !in dir + "/" + name && '#' !in dir + "/" + name
    requires forall i | 0 <= i < |dir + "/" + name| :: !IsBadSpace((dir + "/" + name)[i])
    requires '?' !in dir && '?' !in name && '/' !in name
    requires Trimmed(dir + "/" + name)
    requires HasExtension(name) && Trimmed(name)
    ensures FilenameFromLinkedImage(Some(dir + "/" + name)) == Some(Lower(name))
  {
    var l := dir + "/" + name;
    FilenameOfPlainLink(l);
    TrimOfTrimmed(l);
    BeforeFirstWithout(l, '#');
    FromDecodedLastSegment(dir, name);
  }
}
