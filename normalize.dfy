/** The value normalisers of dropboxRoutes.js: `toOrderNum` (lines
    106-112), the extension tests `isImage`, `isJson` and `base` (113-115),
    `seqFromName` (117-122) and `normalizeOrientation` (200-205).
    A raw JSON field reaches them already converted by `String(v)`;
    `None` stands for `null`/`undefined` (and, for `normalizeOrientation`,
    every falsy value, which `raw || ''` turns into the empty string). */
module Normalize {

  import opened Wrappers
  import opened Text

  /* ------------------------------ toOrderNum ------------------------------ */

  /** `replace(/[^\d-]/g, '')`. */
  function KeepDigitsAndMinus(s: string): (r: string)
    ensures forall i | 0 <= i < |r| :: IsDigit(r[i]) || r[i] == '-'
    ensures |r| <= |s|
  {
    if s == [] then []
    else if IsDigit(s[0]) || s[0] == '-' then [s[0]] + KeepDigitsAndMinus(s[1..])
    else KeepDigitsAndMinus(s[1..])
  }

  /** The longest prefix made of decimal digits. */
  function LeadingDigits(s: string): (r: string)
    ensures r <= s
    ensures forall i | 0 <= i < |r| :: IsDigit(r[i])
    ensures |r| < |s| ==> !IsDigit(s[|r|])
  {
    if s != [] && IsDigit(s[0]) then [s[0]] + LeadingDigits(s[1..]) else []
  }

  /** `parseInt(s, 10)`: leading white space, an optional sign, then the
      longest digit run; no digit means NaN (`None`). */
  function ParseInt(s: string): Option<int>
  {
    ParseSigned(TrimStart(s))
  }

  function ParseSigned(t: string): Option<int>
  {
    if |t| > 0 && t[0] == '-' then
      match ParseDigits(t[1..])
      case None => None
      case Some(v) => Some(-v)
    else if |t| > 0 && t[0] == '+' then ParseDigits(t[1..])
    else ParseDigits(t)
  }

  /** The value of the leading digit run, if there is one. */
  function ParseDigits(b: string): Option<int>
  {
    var ds := LeadingDigits(b);
    if ds == [] then None else Some(DecimalValue(ds))
  }

  /** `toOrderNum(v)`: the order flag of a sidecar as an integer, with
      +Infinity for a missing or unreadable flag. */
  function ToOrderNum(v: Option<string>): ExtInt
  {
    match v
    case None => Inf
    case Some(raw) => OrderOfKept(KeepDigitsAndMinus(Trim(raw)))
  }

  /** The tail of `toOrderNum` once only digits and minus signs are left:
      empty or unparsable is +Infinity. */
  function OrderOfKept(s: string): ExtInt
  {
    if s == [] then Inf
    else match ParseInt(s)
      case None => Inf
      case Some(n) => Fin(n)
  }

  lemma {:induction false} KeepDigitsAndMinusConcat(a: string, b: string)
    ensures KeepDigitsAndMinus(a + b) == KeepDigitsAndMinus(a) + KeepDigitsAndMinus(b)
  {
    if a == [] {
      assert a + b == b;
    } else {
      assert (a + b)[0] == a[0];
      assert (a + b)[1..] == a[1..] + b;
      KeepDigitsAndMinusConcat(a[1..], b);
    }
  }

  lemma {:induction false} KeepDigitsAndMinusOfTrimStart(s: string)
    ensures KeepDigitsAndMinus(TrimStart(s)) == KeepDigitsAndMinus(s)
  {
    if |s| > 0 && IsSpace(s[0]) {
      KeepDigitsAndMinusOfTrimStart(s[1..]);
      KeepDigitsAndMinusSkipsSpace(s);
    }
  }

  /** A leading white-space character is neither a digit nor a minus sign. */
  lemma {:induction false} KeepDigitsAndMinusSkipsSpace(s: string)
    requires |s| > 0 && IsSpace(s[0])
    ensures KeepDigitsAndMinus(s) == KeepDigitsAndMinus(s[1..])
    ensures TrimStart(s) == TrimStart(s[1..])
  {
    var c := s[0];
    assert !IsDigit(c) && c != '-';
  }

  lemma {:induction false} KeepDigitsAndMinusOfTrimEnd(s: string)
    ensures KeepDigitsAndMinus(TrimEnd(s)) == KeepDigitsAndMinus(s)
  {
    if |s| > 0 && IsSpace(s[|s| - 1]) {
      var init := s[..|s| - 1];
      assert s == init + [s[|s| - 1]];
      KeepDigitsAndMinusConcat(init, [s[|s| - 1]]);
      KeepDigitsAndMinusOfTrimEnd(init);
    }
  }

  /** Trimming first makes no difference: white space is stripped anyway. */
  lemma {:induction false} KeepDigitsAndMinusOfTrim(s: string)
    ensures KeepDigitsAndMinus(Trim(s)) == KeepDigitsAndMinus(s)
  {
    KeepDigitsAndMinusOfTrimStart(s);
    KeepDigitsAndMinusOfTrimEnd(TrimStart(s));
  }

  lemma {:induction false} KeepDigitsAndMinusOfKept(s: string)
    requires forall i | 0 <= i < |s| :: IsDigit(s[i]) || s[i] == '-'
    ensures KeepDigitsAndMinus(s) == s
  {
    if s != [] {
      KeepDigitsAndMinusOfKept(s[1..]);
    }
  }

  /** The trim in `toOrderNum` is redundant: a flag reads as the digits
      and minus signs it contains. */
  lemma {:induction false} ToOrderNumReadsKept(raw: string)
    ensures ToOrderNum(Some(raw)) == OrderOfKept(KeepDigitsAndMinus(raw))
  {
    KeepDigitsAndMinusOfTrim(raw);
  }

  lemma {:induction false} KeepDigitsAndMinusDropsNoise(a: string, c: char, b: string)
    requires !IsDigit(c) && c != '-'
    ensures KeepDigitsAndMinus(a + [c] + b) == KeepDigitsAndMinus(a + b)
  {
    KeepDigitsAndMinusConcat(a + [c], b);
    KeepDigitsAndMinusConcat(a, [c]);
    KeepDigitsAndMinusConcat(a, b);
    assert KeepDigitsAndMinus([c]) == [];
  }

  /** Any character other than a digit or `-`, anywhere in the flag, is
      ignored: "a1b2" reads as 12, "#3" as 3. */
  lemma {:induction false} ToOrderNumIgnoresNoise(a: string, c: char, b: string)
    requires !IsDigit(c) && c != '-'
    ensures ToOrderNum(Some(a + [c] + b)) == ToOrderNum(Some(a + b))
  {
    ToOrderNumReadsKept(a + [c] + b);
    ToOrderNumReadsKept(a + b);
    KeepDigitsAndMinusDropsNoise(a, c, b);
  }

  lemma {:induction false} LeadingDigitsOfDigits(ds: string)
    requires forall i | 0 <= i < |ds| :: IsDigit(ds[i])
    ensures LeadingDigits(ds) == ds
  {
  }

  /** `parseInt` of a plain decimal numeral, with or without a minus
      sign, is its value. */
  lemma {:induction false} ParseDigitsOfDecimal(ds: string)
    requires ds != [] && forall i | 0 <= i < |ds| :: IsDigit(ds[i])
    ensures ParseDigits(ds) == Some(DecimalValue(ds) as int)
  {
    LeadingDigitsOfDigits(ds);
  }

  /** Without white space or a sign in front, `parseInt` reads the leading
      digits. */
  lemma {:induction false} ParseIntOfDigitLead(s: string)
    requires s != [] && IsDigit(s[0])
    ensures ParseInt(s) == ParseDigits(s)
  {
    assert s[0] != '-' && s[0] != '+' && !IsSpace(s[0]);
    assert ParseSigned(s) == ParseDigits(s);
    TrimStartOfNonSpace(s);
  }

  lemma {:induction false} ParseIntOfDecimal(ds: string)
    requires ds != [] && forall i | 0 <= i < |ds| :: IsDigit(ds[i])
    ensures ParseInt(ds) == Some(DecimalValue(ds) as int)
  {
    ParseDigitsOfDecimal(ds);
    ParseIntOfDigitLead(ds);
  }

  lemma {:induction false} ParseIntOfNegativeDecimal(ds: string)
    requires ds != [] && forall i | 0 <= i < |ds| :: IsDigit(ds[i])
    ensures ParseInt("-" + ds) == Some(-(DecimalValue(ds) as int))
  {
    ParseDigitsOfDecimal(ds);
    var m := "-" + ds;
    assert m[0] == '-' && m[1..] == ds;
    TrimStartOfNonSpace(m);
    assert ParseSigned(m) == Some(-(DecimalValue(ds) as int));
  }

  /** A flag that is already bare digits and signs reads as its
      `parseInt`. */
  lemma {:induction false} ToOrderNumOfKept(s: string, n: int)
    requires s != [] && KeepDigitsAndMinus(s) == s && ParseInt(s) == Some(n)
    ensures ToOrderNum(Some(s)) == Fin(n)
  {
    ToOrderNumReadsKept(s);
  }

  lemma {:induction false} KeepDigitsAndMinusOfSigned(ds: string)
    requires forall i | 0 <= i < |ds| :: IsDigit(ds[i])
    ensures KeepDigitsAndMinus("-" + ds) == "-" + ds
  {
    KeepDigitsAndMinusOfKept(ds);
    KeepDigitsAndMinusConcat("-", ds);
    assert KeepDigitsAndMinus("-") == "-";
  }

  /** A plain decimal flag reads as its value. */
  lemma {:induction false} ToOrderNumOfDecimal(ds: string)
    requires ds != [] && forall i | 0 <= i < |ds| :: IsDigit(ds[i])
    ensures ToOrderNum(Some(ds)) == Fin(DecimalValue(ds))
  {
    ParseIntOfDecimal(ds);
    KeepDigitsAndMinusOfKept(ds);
    ToOrderNumOfKept(ds, DecimalValue(ds));
  }

  /** A decimal flag with a minus sign reads as the negated value. */
  lemma {:induction false} ToOrderNumOfNegativeDecimal(ds: string)
    requires ds != [] && forall i | 0 <= i < |ds| :: IsDigit(ds[i])
    ensures ToOrderNum(Some("-" + ds)) == Fin(-(DecimalValue(ds) as int))
  {
    var m := "-" + ds;
    var n := -(DecimalValue(ds) as int);
    assert ParseInt(m) == Some(n) by { ParseIntOfNegativeDecimal(ds); }
    assert KeepDigitsAndMinus(m) == m by { KeepDigitsAndMinusOfSigned(ds); }
    ToOrderNumOfKept(m, n);
  }

  lemma {:induction false} KeepDigitsAndMinusOfNoise(s: string)
    requires forall i | 0 <= i < |s| :: !IsDigit(s[i]) && s[i] != '-'
    ensures KeepDigitsAndMinus(s) == []
  {
    if s != [] {
      KeepDigitsAndMinusOfNoise(s[1..]);
    }
  }

  lemma {:induction false} ParseIntOfLoneMinus()
    ensures ParseInt("-") == None
  {
    TrimStartOfNonSpace("-");
    assert "-"[1..] == "";
  }

  lemma {:induction false} ParseIntStopsAtMinus()
    ensures ParseInt("1-2") == Some(1)
  {
    ParseIntOfDigitLead("1-2");
    assert LeadingDigits("1-2") == "1" by {
      assert "1-2"[1..] == "-2";
    }
    DecimalValueExamples();
  }

  lemma {:induction false} DecimalValueExamples()
    ensures DecimalValue("12") == 12
    ensures DecimalValue("1") == 1
    ensures DecimalValue("0") == 0
  {
    assert "12"[..1] == "1";
    assert "1"[..0] == "";
    assert "0"[..0] == "";
  }

  /** Two flags with the same digits and minus signs read the same. */
  lemma {:induction false} ToOrderNumSameKept(a: string, b: string)
    requires KeepDigitsAndMinus(a) == KeepDigitsAndMinus(b)
    ensures ToOrderNum(Some(a)) == ToOrderNum(Some(b))
  {
    ToOrderNumReadsKept(a);
    ToOrderNumReadsKept(b);
  }

  /** A lone minus sign parses to NaN, hence +Infinity. */
  lemma {:induction false} ToOrderNumOfLoneMinus()
    ensures ToOrderNum(Some("-")) == Inf
  {
    ToOrderNumReadsKept("-");
    KeepDigitsAndMinusOfKept("-");
    ParseIntOfLoneMinus();
  }

  /** A flag without digits or minus signs is +Infinity. */
  lemma {:induction false} ToOrderNumOfNoDigits(raw: string)
    requires forall i | 0 <= i < |raw| :: !IsDigit(raw[i]) && raw[i] != '-'
    ensures ToOrderNum(Some(raw)) == Inf
  {
    ToOrderNumReadsKept(raw);
    KeepDigitsAndMinusOfNoise(raw);
  }

  /** A minus after the digits ends the number: "1-2" reads as 1. */
  lemma {:induction false} ToOrderNumOfInnerMinus()
    ensures ToOrderNum(Some("1-2")) == Fin(1)
  {
    KeepDigitsAndMinusOfKept("1-2");
    ParseIntStopsAtMinus();
    ToOrderNumOfKept("1-2", 1);
  }

  /** Letters between digits are dropped before parsing: "a1b2" keeps "12". */
  lemma {:induction false} KeepDigitsAndMinusOfInterleaved()
    ensures KeepDigitsAndMinus("a1b2") == "12"
  {
    assert "a1b2"[1..] == "1b2" && "1b2"[1..] == "b2" && "b2"[1..] == "2" && "2"[1..] == [];
  }

  /** Hence `toOrderNum("a1b2")` is 12. */
  lemma {:induction false} ToOrderNumOfInterleaved()
    ensures ToOrderNum(Some("a1b2")) == Fin(12)
  {
    KeepDigitsAndMinusOfInterleaved();
    KeepDigitsAndMinusOfKept("12");
    ToOrderNumSameKept("a1b2", "12");
    ToOrderNumOfDecimal("12");
    DecimalValueExamples();
  }

  /* --------------------------- extension tests ---------------------------- */

  /** `isImage(n)`: `/\.(jpe?g|png|gif|webp)$/i`. */
  predicate IsImage(n: string)
  {
    var l := Lower(n);
    EndsWith(l, ".jpg") || EndsWith(l, ".jpeg") || EndsWith(l, ".png")
    || EndsWith(l, ".gif") || EndsWith(l, ".webp")
  }

  /** `isJson(n)`: `/\.json$/i`. */
  predicate IsJson(n: string)
  {
    EndsWith(Lower(n), ".json")
  }

  /** The two tests never both hold: an image name is never a sidecar. */
  lemma {:induction false} ImageIsNotJson(n: string)
    ensures !(IsImage(n) && IsJson(n))
  {
    var l := Lower(n);
    if EndsWith(l, ".json") {
      assert l[|l| - 1] == 'n';
    }
  }

  /** The position of the last `.`, if any. */
  function LastDot(s: string): (r: Option<nat>)
    ensures r.Some? ==> r.value < |s| && s[r.value] == '.'
                        && forall k | r.value < k < |s| :: s[k] != '.'
    ensures r.None? ==> '.' !in s
  {
    if s == [] then None
    else if s[|s| - 1] == '.' then Some(|s| - 1)
    else LastDot(s[..|s| - 1])
  }

  /** `replace(/\.[^.]+$/, '')`: drop the last dot and what follows it,
      provided at least one character follows it. */
  function StripExtension(s: string): string
  {
    match LastDot(s)
    case Some(d) => if d + 1 < |s| then s[..d] else s
    case None => s
  }

  /** `base(n)`: the name without its extension, lower-cased. */
  function Base(n: string): string
  {
    Lower(StripExtension(n))
  }

  /** Base undoes "stem.ext" for a non-empty extension without dots, and
      leaves a name without a dot whole. */
  lemma {:induction false} BaseOfStemAndExtension(stem: string, ext: string)
    requires ext != [] && '.' !in ext
    ensures Base(stem + "." + ext) == Lower(stem)
  {
    var s := stem + "." + ext;
    var d := |stem|;
    assert s[d] == '.';
    assert forall k | d < k < |s| :: s[k] == ext[k - d - 1];
    var ld := LastDot(s);
    assert ld == Some(d);
    assert s[..d] == stem;
  }

  lemma {:induction false} BaseWithoutDot(n: string)
    requires '.' !in n
    ensures Base(n) == Lower(n)
  {
  }

  lemma {:induction false} LastDotOfLower(n: string)
    ensures LastDot(Lower(n)) == LastDot(n)
  {
    if n != [] {
      assert Lower(n)[..|n| - 1] == Lower(n[..|n| - 1]);
      LastDotOfLower(n[..|n| - 1]);
    }
  }

  /** Base ignores letter case, so `base(name.toLowerCase())` and
      `base(name)` agree. */
  lemma {:induction false} BaseOfLower(n: string)
    ensures Base(Lower(n)) == Base(n)
  {
    LastDotOfLower(n);
    match LastDot(n) {
      case Some(d) =>
        if d + 1 < |n| {
          assert Lower(n)[..d] == Lower(n[..d]);
        }
      case None =>
    }
    LowerIdempotent(StripExtension(n));
  }

  /* ------------------------------ seqFromName ----------------------------- */

  /** Length of the digit run starting at `i`. */
  function RunLength(s: string, i: nat): (n: nat)
    requires i <= |s|
    ensures i + n <= |s|
    ensures forall k | i <= k < i + n :: IsDigit(s[k])
    ensures i + n < |s| ==> !IsDigit(s[i + n])
  {
    var r := LeadingDigits(s[i..]);
    assert forall k | 0 <= k < |r| :: s[i + k] == r[k];
    |r|
  }

  /** The regex scan of `/(?:^|[^\d])(\d{1,6})(?!\d)/` from position `i`:
      a digit run is taken only whole, so runs longer than six digits are
      skipped. */
  function SeqScan(s: string, i: nat): ExtInt
    requires i <= |s|
    decreases |s| - i
  {
    if i == |s| then Inf
    else if !IsDigit(s[i]) then SeqScan(s, i + 1)
    else
      var n := RunLength(s, i);
      if n <= 6 then Fin(DecimalValue(s[i..i + n])) else SeqScan(s, i + n)
  }

  /** `seqFromName(name)`: the first isolated run of one to six digits. */
  function SeqFromName(name: string): ExtInt
  {
    SeqScan(name, 0)
  }

  /** The declarative reading: a run of 1-6 digits with no digit on
      either side. */
  ghost predicate IsolatedRun(s: string, q: nat, n: nat)
  {
    1 <= n <= 6 && q + n <= |s|
    && (forall k | q <= k < q + n :: IsDigit(s[k]))
    && (q == 0 || !IsDigit(s[q - 1]))
    && (q + n == |s| || !IsDigit(s[q + n]))
  }

  lemma {:induction false} SeqScanCorrect(s: string, i: nat)
    requires i <= |s|
    requires i == 0 || i == |s| || !IsDigit(s[i - 1]) || !IsDigit(s[i])
    ensures SeqScan(s, i).Inf? ==> forall q: nat, n: nat | i <= q :: !IsolatedRun(s, q, n)
    ensures SeqScan(s, i).Fin? ==>
              exists q: nat, n: nat :: i <= q && IsolatedRun(s, q, n)
                             && SeqScan(s, i).n == DecimalValue(s[q..q + n])
                             && forall q': nat, n': nat | i <= q' < q :: !IsolatedRun(s, q', n')
    decreases |s| - i
  {
    if i == |s| {
    } else if !IsDigit(s[i]) {
      SeqScanCorrect(s, i + 1);
      assert forall n: nat :: !IsolatedRun(s, i, n);
    } else {
      var n := RunLength(s, i);
      if n <= 6 {
        assert IsolatedRun(s, i, n);
      } else {
        SeqScanCorrect(s, i + n);
        assert forall q: nat, m: nat | i <= q < i + n :: !IsolatedRun(s, q, m) by {
          forall q: nat, m: nat | i <= q < i + n
            ensures !IsolatedRun(s, q, m)
          {
            if q > i {
              assert IsDigit(s[q - 1]);
            } else if 1 <= m <= 6 {
              assert IsDigit(s[q + m]);
            }
          }
        }
      }
    }
  }

  /** `seqFromName` returns the value of the leftmost isolated 1-6 digit
      run, and +Infinity exactly when there is none. */
  lemma {:induction false} SeqFromNameCorrect(name: string)
    ensures SeqFromName(name).Inf? <==> forall q: nat, n: nat :: !IsolatedRun(name, q, n)
    ensures SeqFromName(name).Fin? ==>
              exists q: nat, n: nat :: IsolatedRun(name, q, n)
                             && SeqFromName(name).n == DecimalValue(name[q..q + n])
                             && forall q': nat, n': nat | q' < q :: !IsolatedRun(name, q', n')
  {
    SeqScanCorrect(name, 0);
  }

  /* ------------------------- normalizeOrientation ------------------------- */

  datatype Orientation = Horizontal | Square

  function OrientationName(o: Orientation): string
  {
    match o
    case Horizontal => "horizontal"
    case Square => "square"
  }

  /** `normalizeOrientation(raw)`: only `horizontal`/`landscape` and
      `square` are recognised, after trimming and lower-casing. */
  function NormalizeOrientation(raw: Option<string>): Option<Orientation>
  {
    OrientationOfWord(Lower(Trim(match raw case None => "" case Some(s) => s)))
  }

  function OrientationOfWord(v: string): Option<Orientation>
  {
    if v == "horizontal" || v == "landscape" then Some(Horizontal)
    else if v == "square" then Some(Square)
    else None
  }

  lemma {:induction false} OrientationWords(o: Orientation)
    ensures OrientationOfWord(OrientationName(o)) == Some(o)
    ensures OrientationOfWord("landscape") == Some(Horizontal)
    ensures OrientationOfWord("vertical") == None
  {
    assert "vertical" != "horizontal" by { assert "vertical"[0] != "horizontal"[0]; }
    assert "vertical" != "landscape" by { assert "vertical"[0] != "landscape"[0]; }
    assert "vertical" != "square" by { assert "vertical"[0] != "square"[0]; }
  }

  lemma {:induction false} LowerOfWords(o: Orientation)
    ensures Lower(OrientationName(o)) == OrientationName(o)
    ensures Lower("LANDSCAPE") == "landscape"
    ensures Lower("vertical") == "vertical"
  {
  }

  /** Surrounding white space and letter case do not matter. */
  lemma {:induction false} NormalizeOrientationOfPadded(pre: string, w: string, post: string)
    requires w != [] && !IsSpace(w[0]) && !IsSpace(w[|w| - 1])
    requires forall i | 0 <= i < |pre| :: IsSpace(pre[i])
    requires forall i | 0 <= i < |post| :: IsSpace(post[i])
    ensures NormalizeOrientation(Some(pre + w + post)) == OrientationOfWord(Lower(w))
  {
    TrimAround(pre, w, post);
  }

  /** The canonical names come back as themselves, whatever the white
      space around them. */
  lemma {:induction false} NormalizeOrientationReadsNames(o: Orientation, pre: string, post: string)
    requires forall i | 0 <= i < |pre| :: IsSpace(pre[i])
    requires forall i | 0 <= i < |post| :: IsSpace(post[i])
    ensures NormalizeOrientation(Some(pre + OrientationName(o) + post)) == Some(o)
  {
    NormalizeOrientationOfPadded(pre, OrientationName(o), post);
    LowerOfWords(o);
    OrientationWords(o);
  }

  /** `landscape` is a synonym of `horizontal`, in any letter case. */
  lemma {:induction false} NormalizeOrientationLandscape(pre: string, post: string)
    requires forall i | 0 <= i < |pre| :: IsSpace(pre[i])
    requires forall i | 0 <= i < |post| :: IsSpace(post[i])
    ensures NormalizeOrientation(Some(pre + "LANDSCAPE" + post)) == Some(Horizontal)
  {
    NormalizeOrientationOfPadded(pre, "LANDSCAPE", post);
    LowerOfWords(Horizontal);
    OrientationWords(Horizontal);
  }

  /** `vertical` (like any other word) is not recognised. */
  lemma {:induction false} NormalizeOrientationVertical(pre: string, post: string)
    requires forall i | 0 <= i < |pre| :: IsSpace(pre[i])
    requires forall i | 0 <= i < |post| :: IsSpace(post[i])
    ensures NormalizeOrientation(Some(pre + "vertical" + post)) == None
  {
    NormalizeOrientationOfPadded(pre, "vertical", post);
    LowerOfWords(Horizontal);
    OrientationWords(Horizontal);
  }

  /** Normalising is idempotent on its own input: passing a value that was
      already trimmed and lower-cased gives the same orientation. */
  lemma {:induction false} NormalizeOrientationCanonical(s: string)
    ensures NormalizeOrientation(Some(Lower(Trim(s)))) == NormalizeOrientation(Some(s))
  {
    TrimResult(s);
    LowerKeepsTrimmed(Trim(s));
    TrimOfTrimmed(Lower(Trim(s)));
    LowerIdempotent(Trim(s));
  }
}
