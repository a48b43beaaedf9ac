/** The gallery's image order (dropboxRoutes.js lines 123-126, 275-288
    and 546-571). Two orders are used. `sortAndFilterImagesByName` keeps
    the image files that are not order-0 ("zero") images and sorts them
    by their sidecar order, then by natural name order; the project card
    takes its thumbnail from its first element when no zero image exists.
    `annotateImages` and `sortAnnotated` do the same filtering for the
    gallery pages, with the sort key extended by the sequence number in
    the file name and the client modification time.

    `naturalCompare` (the `Intl` collator with numeric collation and base
    sensitivity) is the parameter `cmp`: the order is stated for any `cmp`
    whose `cmp(a, b) <= 0` is a total preorder, and `Date.parse` is the
    oracle `parse`, `None` standing for NaN. */
module Gallery {

  import opened Wrappers
  import opened Text
  import opened Normalize
  import opened OrderIndex
  import opened Sorting

  /** `cmp(a, b) <= 0` is total and transitive, as a collator's is. */
  ghost predicate IsNameOrder(cmp: (string, string) -> int)
  {
    (forall a, b :: cmp(a, b) <= 0 || cmp(b, a) <= 0)
    && (forall a, b, c :: cmp(a, b) <= 0 && cmp(b, c) <= 0 ==> cmp(a, c) <= 0)
  }

  /** `hasOwnProperty(ordByName, n) ? ordByName[n] : Infinity`. */
  function OrderOf(ordByName: map<string, ExtInt>, n: string): (r: ExtInt)
  {
    if n in ordByName then ordByName[n] else Inf
  }

  /** `safeTime(t)`: the parsed time, or Infinity when it is NaN. */
  function SafeTime(parse: string -> Option<int>, t: string): (r: ExtInt)
  {
    match parse(t)
    case None => Inf
    case Some(ms) => Fin(ms)
  }

  /* ----------------------- sortAndFilterImagesByName ----------------------- */

  /** The images of `imgs` whose lower-cased name is not a zero name. */
  function Unzero(imgs: seq<FolderEntry>, zeroNames: set<string>): (r: seq<FolderEntry>)
    ensures |r| <= |imgs|
  {
    if imgs == [] then []
    else
      var last := imgs[|imgs| - 1];
      Unzero(imgs[..|imgs| - 1], zeroNames) + (if Lower(last.name) in zeroNames then [] else [last])
  }

  /** The two filters of `sortAndFilterImagesByName`, in listing order. */
  function VisibleImages(entries: seq<FolderEntry>, zeroNames: set<string>): seq<FolderEntry>
  {
    Unzero(Images(entries), zeroNames)
  }

  lemma {:induction false} UnzeroMembers(imgs: seq<FolderEntry>, zeroNames: set<string>, e: FolderEntry)
    ensures e in Unzero(imgs, zeroNames) <==> e in imgs && Lower(e.name) !in zeroNames
  {
    if imgs != [] {
      var init := imgs[..|imgs| - 1];
      UnzeroMembers(init, zeroNames, e);
      assert imgs == init + [imgs[|imgs| - 1]];
    }
  }

  /** The visible images are exactly the image files that are not zero
      images. */
  lemma {:induction false} VisibleMembers(entries: seq<FolderEntry>, zeroNames: set<string>,
                                          e: FolderEntry)
    ensures e in VisibleImages(entries, zeroNames) <==>
              e in entries && IsImageFile(e) && Lower(e.name) !in zeroNames
  {
    UnzeroMembers(Images(entries), zeroNames, e);
    ImagesMembers(entries, e);
  }

  /** The comparator of lines 280-286, read as "a may come before b": the
      smaller sidecar order first, and names in natural order on a tie. */
  predicate NameBefore(ordByName: map<string, ExtInt>, cmp: (string, string) -> int,
                       a: FolderEntry, b: FolderEntry)
  {
    var ao := OrderOf(ordByName, Lower(a.name));
    var bo := OrderOf(ordByName, Lower(b.name));
    if ao != bo then ExtLess(ao, bo) else cmp(a.name, b.name) <= 0
  }

  function NameLe(ordByName: map<string, ExtInt>, cmp: (string, string) -> int)
    : (FolderEntry, FolderEntry) -> bool
  {
    (a, b) => NameBefore(ordByName, cmp, a, b)
  }

  /** What `sortAndFilterImagesByName(entries, ordByName, zeroNames)`
      returns. */
  function ImagesByName(entries: seq<FolderEntry>, ordByName: map<string, ExtInt>,
                        zeroNames: set<string>, cmp: (string, string) -> int): seq<FolderEntry>
  {
    InsertionSort(VisibleImages(entries, zeroNames), NameLe(ordByName, cmp))
  }

  /** `sortAndFilterImagesByName`: filter, then sort the copy in place. */
  method SortAndFilterImagesByName(entries: seq<FolderEntry>, ordByName: map<string, ExtInt>,
                                   zeroNames: set<string>, cmp: (string, string) -> int)
    returns (imgs: seq<FolderEntry>)
    ensures imgs == ImagesByName(entries, ordByName, zeroNames, cmp)
  {
    var visible := VisibleImages(entries, zeroNames);
    var a := new FolderEntry[|visible|](i requires 0 <= i < |visible| => visible[i]);
    assert a[..] == visible;
    SortInPlace(a, NameLe(ordByName, cmp));
    imgs := a[..];
  }

  /** The comparator is a total preorder when the name order is one. */
  lemma {:induction false} NameLeIsPreorder(ordByName: map<string, ExtInt>, cmp: (string, string) -> int)
    requires IsNameOrder(cmp)
    ensures Total(NameLe(ordByName, cmp)) && Transitive(NameLe(ordByName, cmp))
  {
    var le := NameLe(ordByName, cmp);
    forall a, b
      ensures le(a, b) || le(b, a)
    {
      var ao := OrderOf(ordByName, Lower(a.name));
      var bo := OrderOf(ordByName, Lower(b.name));
      ExtLessOrder(ao, bo, ao);
    }
    forall a, b, c | le(a, b) && le(b, c)
      ensures le(a, c)
    {
      var ao := OrderOf(ordByName, Lower(a.name));
      var bo := OrderOf(ordByName, Lower(b.name));
      var co := OrderOf(ordByName, Lower(c.name));
      ExtLessOrder(ao, bo, co);
    }
  }

  /** The result is a sorted permutation of the visible images: it holds
      each of them as often as the listing does, nothing else, and the
      sidecar orders never decrease along it. */
  lemma {:induction false} ImagesByNameCorrect(entries: seq<FolderEntry>,
                                               ordByName: map<string, ExtInt>,
                                               zeroNames: set<string>, cmp: (string, string) -> int)
    requires IsNameOrder(cmp)
    ensures multiset(ImagesByName(entries, ordByName, zeroNames, cmp))
            == multiset(VisibleImages(entries, zeroNames))
    ensures SortedBy(ImagesByName(entries, ordByName, zeroNames, cmp), NameLe(ordByName, cmp))
  {
    NameLeIsPreorder(ordByName, cmp);
    InsertionSortPermutes(VisibleImages(entries, zeroNames), NameLe(ordByName, cmp));
    InsertionSortSorted(VisibleImages(entries, zeroNames), NameLe(ordByName, cmp));
  }

  /** An image is in the result exactly when it is a visible image. */
  lemma {:induction false} ImagesByNameMembers(entries: seq<FolderEntry>,
                                               ordByName: map<string, ExtInt>,
                                               zeroNames: set<string>, cmp: (string, string) -> int,
                                               e: FolderEntry)
    ensures e in ImagesByName(entries, ordByName, zeroNames, cmp) <==>
              e in entries && IsImageFile(e) && Lower(e.name) !in zeroNames
  {
    var v := VisibleImages(entries, zeroNames);
    InsertionSortPermutes(v, NameLe(ordByName, cmp));
    assert e in ImagesByName(entries, ordByName, zeroNames, cmp) <==> e in multiset(v);
    VisibleMembers(entries, zeroNames, e);
  }

  /** Along the result, the sidecar orders never decrease, and two images
      of equal order are in natural name order. */
  lemma {:induction false} ImagesByNameOrdered(entries: seq<FolderEntry>,
                                               ordByName: map<string, ExtInt>,
                                               zeroNames: set<string>, cmp: (string, string) -> int,
                                               i: nat, j: nat)
    requires IsNameOrder(cmp)
    requires i < j < |ImagesByName(entries, ordByName, zeroNames, cmp)|
    ensures var r := ImagesByName(entries, ordByName, zeroNames, cmp);
            var oi := OrderOf(ordByName, Lower(r[i].name));
            var oj := OrderOf(ordByName, Lower(r[j].name));
            ExtLessEq(oi, oj) && (oi == oj ==> cmp(r[i].name, r[j].name) <= 0)
  {
    ImagesByNameCorrect(entries, ordByName, zeroNames, cmp);
    var r := ImagesByName(entries, ordByName, zeroNames, cmp);
    assert NameLe(ordByName, cmp)(r[i], r[j]);
  }

  /** The first image of the result has the least sidecar order of all
      visible images. */
  lemma {:induction false} FirstHasLeastOrder(entries: seq<FolderEntry>,
                                              ordByName: map<string, ExtInt>,
                                              zeroNames: set<string>, cmp: (string, string) -> int,
                                              e: FolderEntry)
    requires IsNameOrder(cmp)
    requires e in entries && IsImageFile(e) && Lower(e.name) !in zeroNames
    ensures ImagesByName(entries, ordByName, zeroNames, cmp) != []
    ensures ExtLessEq(OrderOf(ordByName, Lower(ImagesByName(entries, ordByName, zeroNames, cmp)[0].name)),
                      OrderOf(ordByName, Lower(e.name)))
  {
    var r := ImagesByName(entries, ordByName, zeroNames, cmp);
    ImagesByNameMembers(entries, ordByName, zeroNames, cmp, e);
    var k :| 0 <= k < |r| && r[k] == e;
    if k > 0 {
      ImagesByNameOrdered(entries, ordByName, zeroNames, cmp, 0, k);
    }
  }

  /* ------------------------- the card's thumbnail -------------------------- */

  /** `entries.find(image file whose lower-cased name is a zero name)`. */
  function FirstZeroImage(entries: seq<FolderEntry>, zeroNames: set<string>): (r: Option<FolderEntry>)
    ensures r.Some? ==> r.value in entries && IsImageFile(r.value) && Lower(r.value.name) in zeroNames
    ensures r.None? ==> forall e | e in entries :: !(IsImageFile(e) && Lower(e.name) in zeroNames)
  {
    if entries == [] then None
    else if IsImageFile(entries[0]) && Lower(entries[0].name) in zeroNames then Some(entries[0])
    else FirstZeroImage(entries[1..], zeroNames)
  }

  /** The zero image found is the first one in listing order. */
  lemma {:induction false} FirstZeroImageIsFirst(entries: seq<FolderEntry>, zeroNames: set<string>,
                                                 k: nat)
    requires k < |entries| && IsImageFile(entries[k]) && Lower(entries[k].name) in zeroNames
    ensures FirstZeroImage(entries, zeroNames).Some?
    ensures exists j | 0 <= j <= k :: entries[j] == FirstZeroImage(entries, zeroNames).value
              && forall i | 0 <= i < j :: !(IsImageFile(entries[i]) && Lower(entries[i].name) in zeroNames)
  {
    if !(IsImageFile(entries[0]) && Lower(entries[0].name) in zeroNames) {
      FirstZeroImageIsFirst(entries[1..], zeroNames, k - 1);
      var j :| 0 <= j <= k - 1 && entries[1..][j] == FirstZeroImage(entries[1..], zeroNames).value
               && forall i | 0 <= i < j :: !(IsImageFile(entries[1..][i]) && Lower(entries[1..][i].name) in zeroNames);
      assert entries[j + 1] == FirstZeroImage(entries, zeroNames).value;
      forall i | 0 <= i < j + 1
        ensures !(IsImageFile(entries[i]) && Lower(entries[i].name) in zeroNames)
      {
        if i > 0 {
          assert entries[i] == entries[1..][i - 1];
        }
      }
    } else {
      assert entries[0] == FirstZeroImage(entries, zeroNames).value;
    }
  }

  /** The image `refineProjectCardFromSidecars` picks (lines 450-455): the
      first zero image, else the first image of the gallery order. */
  function ChooseCardImage(entries: seq<FolderEntry>, ordByName: map<string, ExtInt>,
                           zeroNames: set<string>, cmp: (string, string) -> int): Option<FolderEntry>
  {
    match FirstZeroImage(entries, zeroNames)
    case Some(z) => Some(z)
    case None =>
      var s := ImagesByName(entries, ordByName, zeroNames, cmp);
      if s == [] then None else Some(s[0])
  }

  /** The card image is a zero image when there is one; otherwise it is an
      image of least sidecar order, and there is none only when the folder
      holds no image at all. */
  lemma {:induction false} ChooseCardImageCorrect(entries: seq<FolderEntry>,
                                                  ordByName: map<string, ExtInt>,
                                                  zeroNames: set<string>,
                                                  cmp: (string, string) -> int)
    requires IsNameOrder(cmp)
    ensures var r := ChooseCardImage(entries, ordByName, zeroNames, cmp);
            (r.None? <==> forall e | e in entries :: !IsImageFile(e))
            && (r.Some? ==> r.value in entries && IsImageFile(r.value))
    ensures var r := ChooseCardImage(entries, ordByName, zeroNames, cmp);
            (exists e | e in entries :: IsImageFile(e) && Lower(e.name) in zeroNames)
            ==> r.Some? && Lower(r.value.name) in zeroNames
    ensures var r := ChooseCardImage(entries, ordByName, zeroNames, cmp);
            FirstZeroImage(entries, zeroNames).None? && r.Some? ==>
              forall e | e in entries && IsImageFile(e) ::
                ExtLessEq(OrderOf(ordByName, Lower(r.value.name)), OrderOf(ordByName, Lower(e.name)))
  {
    var r := ChooseCardImage(entries, ordByName, zeroNames, cmp);
    if FirstZeroImage(entries, zeroNames).None? {
      var s := ImagesByName(entries, ordByName, zeroNames, cmp);
      if s != [] {
        ImagesByNameMembers(entries, ordByName, zeroNames, cmp, s[0]);
        forall e | e in entries && IsImageFile(e)
          ensures ExtLessEq(OrderOf(ordByName, Lower(s[0].name)), OrderOf(ordByName, Lower(e.name)))
        {
          FirstHasLeastOrder(entries, ordByName, zeroNames, cmp, e);
        }
      } else {
        forall e | e in entries
          ensures !IsImageFile(e)
        {
          ImagesByNameMembers(entries, ordByName, zeroNames, cmp, e);
        }
      }
    }
  }

  /* ------------------------ annotateImages, sortAnnotated ------------------ */

  /** One element of `annotateImages`' result. */
  datatype Annotated = Annotated(
    entry: FolderEntry, ord: ExtInt, seqNum: ExtInt, t: ExtInt, isZero: bool,
    orient: Option<Orientation>, proj: Option<string>)

  /** The annotation of one image (lines 550-561). */
  function Annotate(idx: OrderIndex, parse: string -> Option<int>, e: FolderEntry): (a: Annotated)
    ensures a.entry == e
    ensures a.isZero <==> Lower(e.name) in idx.zeroNames
  {
    var n := Lower(e.name);
    Annotated(
      e, OrderOf(idx.ordByName, n), SeqFromName(e.name), SafeTime(parse, e.clientModified),
      n in idx.zeroNames,
      if n in idx.orientationByName then Some(idx.orientationByName[n]) else None,
      if n in idx.projectByName then Some(idx.projectByName[n]) else None)
  }

  /** Annotate every image of `imgs`, then drop the zero images. */
  function AnnotateAll(idx: OrderIndex, parse: string -> Option<int>, imgs: seq<FolderEntry>)
    : seq<Annotated>
  {
    if imgs == [] then []
    else
      var a := Annotate(idx, parse, imgs[|imgs| - 1]);
      AnnotateAll(idx, parse, imgs[..|imgs| - 1]) + (if a.isZero then [] else [a])
  }

  /** `annotateImages(entries, ordByName, zeroNames, orientationByName,
      projectByName)`. */
  function AnnotateImages(entries: seq<FolderEntry>, idx: OrderIndex, parse: string -> Option<int>)
    : seq<Annotated>
  {
    AnnotateAll(idx, parse, Images(entries))
  }

  lemma {:induction false} AnnotateAllOfUnzero(idx: OrderIndex, parse: string -> Option<int>,
                                               imgs: seq<FolderEntry>)
    ensures var v := Unzero(imgs, idx.zeroNames);
            var r := AnnotateAll(idx, parse, imgs);
            |r| == |v| && forall i | 0 <= i < |v| :: r[i] == Annotate(idx, parse, v[i])
  {
    if imgs != [] {
      var init := imgs[..|imgs| - 1];
      AnnotateAllOfUnzero(idx, parse, init);
      var a := Annotate(idx, parse, imgs[|imgs| - 1]);
      assert AnnotateAll(idx, parse, imgs)
             == AnnotateAll(idx, parse, init) + (if a.isZero then [] else [a]);
      assert Unzero(imgs, idx.zeroNames)
             == Unzero(init, idx.zeroNames) + (if a.isZero then [] else [imgs[|imgs| - 1]]);
    }
  }

  /** `annotateImages` annotates exactly the visible images, in listing
      order, with their own sidecar data: none of its elements is a zero
      image. */
  lemma {:induction false} AnnotateImagesCorrect(entries: seq<FolderEntry>, idx: OrderIndex,
                                                 parse: string -> Option<int>)
    ensures var v := VisibleImages(entries, idx.zeroNames);
            var r := AnnotateImages(entries, idx, parse);
            |r| == |v| && forall i | 0 <= i < |v| :: r[i] == Annotate(idx, parse, v[i])
    ensures forall a | a in AnnotateImages(entries, idx, parse) :: !a.isZero
  {
    var v := VisibleImages(entries, idx.zeroNames);
    var r := AnnotateImages(entries, idx, parse);
    AnnotateAllOfUnzero(idx, parse, Images(entries));
    forall a | a in r
      ensures !a.isZero
    {
      var i :| 0 <= i < |r| && r[i] == a;
      UnzeroMembers(Images(entries), idx.zeroNames, v[i]);
    }
  }

  /** `sortAnnotated` read as "a may come before b": by order, then by the
      sequence number in the name, then by time, then by natural name
      order. */
  predicate AnnotatedBefore(cmp: (string, string) -> int, a: Annotated, b: Annotated)
  {
    if a.ord != b.ord then ExtLess(a.ord, b.ord)
    else if a.seqNum != b.seqNum then ExtLess(a.seqNum, b.seqNum)
    else if a.t != b.t then ExtLess(a.t, b.t)
    else cmp(a.entry.name, b.entry.name) <= 0
  }

  /** An image that no sidecar orders sorts after every image that one
      orders, whatever their names, sequence numbers and times. */
  lemma {:induction false} UnorderedSortsLast(cmp: (string, string) -> int, idx: OrderIndex,
                                              parse: string -> Option<int>,
                                              e1: FolderEntry, e2: FolderEntry)
    requires Lower(e1.name) in idx.ordByName && idx.ordByName[Lower(e1.name)].Fin?
    requires Lower(e2.name) !in idx.ordByName
    ensures AnnotatedBefore(cmp, Annotate(idx, parse, e1), Annotate(idx, parse, e2))
    ensures !AnnotatedBefore(cmp, Annotate(idx, parse, e2), Annotate(idx, parse, e1))
  {
  }

  /** Among images of equal order and sequence number, one whose time does
      not parse sorts after one whose time does. */
  lemma {:induction false} UnparsedTimeSortsLast(cmp: (string, string) -> int, idx: OrderIndex,
                                                 parse: string -> Option<int>,
                                                 e1: FolderEntry, e2: FolderEntry)
    requires OrderOf(idx.ordByName, Lower(e1.name)) == OrderOf(idx.ordByName, Lower(e2.name))
    requires SeqFromName(e1.name) == SeqFromName(e2.name)
    requires parse(e1.clientModified).Some? && parse(e2.clientModified).None?
    ensures AnnotatedBefore(cmp, Annotate(idx, parse, e1), Annotate(idx, parse, e2))
    ensures !AnnotatedBefore(cmp, Annotate(idx, parse, e2), Annotate(idx, parse, e1))
  {
  }

  function AnnotatedLe(cmp: (string, string) -> int): (Annotated, Annotated) -> bool
  {
    (a, b) => AnnotatedBefore(cmp, a, b)
  }

  /** The gallery order of a folder: `annotated.sort(sortAnnotated)`. */
  function GalleryOrder(entries: seq<FolderEntry>, idx: OrderIndex, parse: string -> Option<int>,
                        cmp: (string, string) -> int): seq<Annotated>
  {
    InsertionSort(AnnotateImages(entries, idx, parse), AnnotatedLe(cmp))
  }

  /** `annotateImages` followed by the in-place sort (lines 639-640). */
  method SortAnnotatedImages(entries: seq<FolderEntry>, idx: OrderIndex,
                             parse: string -> Option<int>, cmp: (string, string) -> int)
    returns (r: seq<Annotated>)
    ensures r == GalleryOrder(entries, idx, parse, cmp)
  {
    var xs := AnnotateImages(entries, idx, parse);
    var a := new Annotated[|xs|](i requires 0 <= i < |xs| => xs[i]);
    assert a[..] == xs;
    SortInPlace(a, AnnotatedLe(cmp));
    r := a[..];
  }

  /** One key of the lexicographic comparison: an earlier key decides
      unless the two are equal. */
  lemma {:induction false} KeyStep(x: ExtInt, y: ExtInt, z: ExtInt, p: bool, q: bool, s: bool)
    requires (if x != y then ExtLess(x, y) else p) && (if y != z then ExtLess(y, z) else q)
    requires x == y == z && p && q ==> s
    ensures if x != z then ExtLess(x, z) else s
  {
    ExtLessOrder(x, y, z);
    ExtLessOrder(x, z, y);
    ExtLessOrder(y, z, x);
  }

  /** `sortAnnotated` is a total preorder when the name order is one. */
  lemma {:induction false} AnnotatedLeIsPreorder(cmp: (string, string) -> int)
    requires IsNameOrder(cmp)
    ensures Total(AnnotatedLe(cmp)) && Transitive(AnnotatedLe(cmp))
  {
    var le := AnnotatedLe(cmp);
    forall a, b
      ensures le(a, b) || le(b, a)
    {
      ExtLessOrder(a.ord, b.ord, a.ord);
      ExtLessOrder(a.seqNum, b.seqNum, a.seqNum);
      ExtLessOrder(a.t, b.t, a.t);
    }
    forall a, b, c | le(a, b) && le(b, c)
      ensures le(a, c)
    {
      var nameAB := cmp(a.entry.name, b.entry.name) <= 0;
      var nameBC := cmp(b.entry.name, c.entry.name) <= 0;
      var nameAC := cmp(a.entry.name, c.entry.name) <= 0;
      var tAB := if a.t != b.t then ExtLess(a.t, b.t) else nameAB;
      var tBC := if b.t != c.t then ExtLess(b.t, c.t) else nameBC;
      var tAC := if a.t != c.t then ExtLess(a.t, c.t) else nameAC;
      if tAB && tBC {
        KeyStep(a.t, b.t, c.t, nameAB, nameBC, nameAC);
      }
      var sAB := if a.seqNum != b.seqNum then ExtLess(a.seqNum, b.seqNum) else tAB;
      var sBC := if b.seqNum != c.seqNum then ExtLess(b.seqNum, c.seqNum) else tBC;
      var sAC := if a.seqNum != c.seqNum then ExtLess(a.seqNum, c.seqNum) else tAC;
      if sAB && sBC {
        KeyStep(a.seqNum, b.seqNum, c.seqNum, tAB, tBC, tAC);
      }
      KeyStep(a.ord, b.ord, c.ord, sAB, sBC, sAC);
    }
  }

  /** The gallery shows each visible image once per listing entry, sorted
      by `sortAnnotated`; along it the sidecar orders never decrease, and
      within one order the sequence numbers never decrease. */
  lemma {:induction false} GalleryOrderCorrect(entries: seq<FolderEntry>, idx: OrderIndex,
                                               parse: string -> Option<int>,
                                               cmp: (string, string) -> int)
    requires IsNameOrder(cmp)
    ensures multiset(GalleryOrder(entries, idx, parse, cmp)) == multiset(AnnotateImages(entries, idx, parse))
    ensures SortedBy(GalleryOrder(entries, idx, parse, cmp), AnnotatedLe(cmp))
    ensures var r := GalleryOrder(entries, idx, parse, cmp);
            forall i, j | 0 <= i < j < |r| ::
              ExtLessEq(r[i].ord, r[j].ord) && (r[i].ord == r[j].ord ==> ExtLessEq(r[i].seqNum, r[j].seqNum))
  {
    AnnotatedLeIsPreorder(cmp);
    InsertionSortPermutes(AnnotateImages(entries, idx, parse), AnnotatedLe(cmp));
    InsertionSortSorted(AnnotateImages(entries, idx, parse), AnnotatedLe(cmp));
    var r := GalleryOrder(entries, idx, parse, cmp);
    forall i, j | 0 <= i < j < |r|
      ensures ExtLessEq(r[i].ord, r[j].ord) && (r[i].ord == r[j].ord ==> ExtLessEq(r[i].seqNum, r[j].seqNum))
    {
      assert AnnotatedLe(cmp)(r[i], r[j]);
    }
  }
}
