/** The per-folder sidecar index (dropboxRoutes.js lines 207-273 and
    591-597). A folder listing holds image files and JSON "sidecars"; each
    sidecar that loads assigns its order, orientation and project either
    to the one image its `linked_image` names exactly, or to every image
    sharing a base name (the linked name's, or the sidecar's own when there
    is no usable link). Images that receive order 0 are collected in
    `zeroNames`. The index is cached per folder under a key that carries a
    version built from the sidecars' modification times and count.

    Downloading and parsing a sidecar is the oracle `load` (`None` when
    either throws) and `Date.parse` is the oracle `parse` (`None` for NaN).
    The sidecars are folded in listing order; the source runs them under
    `Promise.all`, and since every assignment block is synchronous the only
    difference is which sidecar wins when two target the same image. */
module OrderIndex {

  import opened Wrappers
  import opened Text
  import opened Ttl
  import opened Normalize
  import opened LinkedImage

  datatype Tag = File | Folder | Deleted

  /** One `files/list_folder` entry. A missing string field is `""`: every
      use of one goes through `||`, which treats both alike. */
  datatype FolderEntry = FolderEntry(
    tag: Tag, id: string, name: string, pathLower: string, pathDisplay: string,
    clientModified: string, serverModified: string)

  /** JavaScript's `a || b` on strings. */
  function Or(a: string, b: string): string
  {
    if a != "" then a else b
  }

  const METADATA_FILE: string := "_metadata.json"

  predicate IsImageFile(e: FolderEntry)
  {
    e.tag == File && IsImage(e.name)
  }

  /** A sidecar: a `.json` file other than the folder's `_metadata.json`. */
  predicate IsSidecar(e: FolderEntry)
  {
    e.tag == File && IsJson(e.name) && e.name != METADATA_FILE
  }

  /** `entries.filter(isImage-file)`, in listing order. */
  function Images(entries: seq<FolderEntry>): (r: seq<FolderEntry>)
    ensures |r| <= |entries|
  {
    if entries == [] then []
    else
      var last := entries[|entries| - 1];
      assert entries == entries[..|entries| - 1] + [last];
      Images(entries[..|entries| - 1]) + (if IsImageFile(last) then [last] else [])
  }

  /** `entries.filter(sidecar)`, in listing order. */
  function Sidecars(entries: seq<FolderEntry>): (r: seq<FolderEntry>)
    ensures |r| <= |entries|
  {
    if entries == [] then []
    else
      var last := entries[|entries| - 1];
      assert entries == entries[..|entries| - 1] + [last];
      Sidecars(entries[..|entries| - 1]) + (if IsSidecar(last) then [last] else [])
  }

  /** The images of a listing are exactly its image files. */
  lemma {:induction false} ImagesMembers(entries: seq<FolderEntry>, e: FolderEntry)
    ensures e in Images(entries) <==> e in entries && IsImageFile(e)
  {
    if entries != [] {
      var init := entries[..|entries| - 1];
      ImagesMembers(init, e);
      assert entries == init + [entries[|entries| - 1]];
    }
  }

  /** The sidecars of a listing are exactly its `.json` files other than
      `_metadata.json`. */
  lemma {:induction false} SidecarsMembers(entries: seq<FolderEntry>, e: FolderEntry)
    ensures e in Sidecars(entries) <==> e in entries && IsSidecar(e)
  {
    if entries != [] {
      var init := entries[..|entries| - 1];
      SidecarsMembers(init, e);
      assert entries == init + [entries[|entries| - 1]];
    }
  }

  /** The `_metadata.json` file is never a sidecar. */
  lemma {:induction false} MetadataIsNotSidecar(entries: seq<FolderEntry>, e: FolderEntry)
    requires e.name == METADATA_FILE
    ensures e !in Sidecars(entries)
  {
    SidecarsMembers(entries, e);
  }

  /* --------------------------- the two lookups ----------------------------- */

  /** The lower-cased names of some images. */
  function ImageNames(imgs: seq<FolderEntry>): set<string>
  {
    set e | e in imgs :: Lower(e.name)
  }

  /** `byLowerName`, as the loop leaves it: the last image wins a name. */
  function ByLowerName(imgs: seq<FolderEntry>): map<string, FolderEntry>
  {
    if imgs == [] then map[]
    else ByLowerName(imgs[..|imgs| - 1])[Lower(imgs[|imgs| - 1].name) := imgs[|imgs| - 1]]
  }

  /** Its keys are the images' lower-cased names. */
  lemma {:induction false} ByLowerNameKeys(imgs: seq<FolderEntry>)
    ensures ByLowerName(imgs).Keys == ImageNames(imgs)
  {
    if imgs != [] {
      var init := imgs[..|imgs| - 1];
      var last := imgs[|imgs| - 1];
      ByLowerNameKeys(init);
      assert imgs == init + [last];
      assert ImageNames(imgs) == ImageNames(init) + {Lower(last.name)};
    }
  }

  /** The images whose base name is `b`, in listing order. */
  function Group(imgs: seq<FolderEntry>, b: string): seq<FolderEntry>
  {
    if imgs == [] then []
    else
      var last := imgs[|imgs| - 1];
      Group(imgs[..|imgs| - 1], b) + (if Base(Lower(last.name)) == b then [last] else [])
  }

  lemma {:induction false} GroupMembers(imgs: seq<FolderEntry>, b: string, e: FolderEntry)
    ensures e in Group(imgs, b) <==> e in imgs && Base(Lower(e.name)) == b
  {
    if imgs != [] {
      var init := imgs[..|imgs| - 1];
      GroupMembers(init, b, e);
      assert imgs == init + [imgs[|imgs| - 1]];
    }
  }

  /** `byBase`, as the loop leaves it: every base name that occurs, mapped
      to its group. */
  function ByBase(imgs: seq<FolderEntry>): map<string, seq<FolderEntry>>
  {
    if imgs == [] then map[]
    else
      var init := imgs[..|imgs| - 1];
      var last := imgs[|imgs| - 1];
      var m := ByBase(init);
      var b := Base(Lower(last.name));
      m[b := (if b in m then m[b] else []) + [last]]
  }

  /** Its entry for a base name is that name's group. */
  lemma {:induction false} ByBaseGroups(imgs: seq<FolderEntry>, b: string)
    ensures (if b in ByBase(imgs) then ByBase(imgs)[b] else []) == Group(imgs, b)
  {
    if imgs != [] {
      ByBaseGroups(imgs[..|imgs| - 1], b);
    }
  }

  datatype Lookups = Lookups(byLowerName: map<string, FolderEntry>, byBase: map<string, seq<FolderEntry>>)

  function LookupsOf(imgs: seq<FolderEntry>): Lookups
  {
    Lookups(ByLowerName(imgs), ByBase(imgs))
  }

  /** `byBase.get(b) || []`. */
  function GroupOf(lk: Lookups, b: string): seq<FolderEntry>
  {
    if b in lk.byBase then lk.byBase[b] else []
  }

  /** The names `assign` writes for some candidates: each lower-cased. */
  function Names(cands: seq<FolderEntry>): (r: seq<string>)
    ensures |r| == |cands|
    ensures forall i | 0 <= i < |cands| :: r[i] == Lower(cands[i].name)
  {
    seq(|cands|, i requires 0 <= i < |cands| => Lower(cands[i].name))
  }

  /** The names one sidecar writes to: the exact linked image when it is
      one of the folder's images, otherwise the group of the linked name's
      base, or of the sidecar's own base when there is no link. */
  function Targets(lk: Lookups, sidecarName: string, exact: Option<string>): seq<string>
  {
    match exact
    case None => Names(GroupOf(lk, Base(Lower(sidecarName))))
    case Some(x) =>
      if x in lk.byLowerName then [x] else Names(GroupOf(lk, Base(x)))
  }

  /** Target resolution in terms of the images themselves. */
  lemma {:induction false} TargetsOfImages(imgs: seq<FolderEntry>, sidecarName: string,
                                           exact: Option<string>, n: string)
    ensures n in Targets(LookupsOf(imgs), sidecarName, exact) <==>
      if exact.Some? && exact.value in ImageNames(imgs) then n == exact.value
      else n in ImageNames(imgs)
           && Base(n) == (if exact.Some? then Base(exact.value) else Base(Lower(sidecarName)))
  {
    var lk := LookupsOf(imgs);
    ByLowerNameKeys(imgs);
    var b := if exact.Some? then Base(exact.value) else Base(Lower(sidecarName));
    if !(exact.Some? && exact.value in ImageNames(imgs)) {
      var g := GroupOf(lk, b);
      ByBaseGroups(imgs, b);
      assert Targets(lk, sidecarName, exact) == Names(g);
      if n in Names(g) {
        var i :| 0 <= i < |g| && Names(g)[i] == n;
        GroupMembers(imgs, b, g[i]);
      }
      if n in ImageNames(imgs) && Base(n) == b {
        var e :| e in imgs && Lower(e.name) == n;
        GroupMembers(imgs, b, e);
        var i :| 0 <= i < |g| && g[i] == e;
        assert Names(g)[i] == n;
      }
    }
  }

  /* ------------------------------ the index -------------------------------- */

  /** What one sidecar says, as read by the code (`meta?.x`), field by
      field:
      - `orderFlag` is `None` only where the field is missing, `null` or
        `undefined`, and `String(x)` otherwise, so `0` gives `"0"`;
      - `orientation` and `project` are `None` where the field is missing
        or falsy, and `String(x)` otherwise;
      - `linkedImage` is `Some(x)` exactly where the field is a string
        (possibly empty), and `None` for a missing field or one of any
        other type. */
  datatype SidecarMeta = SidecarMeta(
    orderFlag: Option<string>, orientation: Option<string>,
    project: Option<string>, linkedImage: Option<string>)

  datatype OrderIndex = OrderIndex(
    ordByName: map<string, ExtInt>, zeroNames: set<string>,
    orientationByName: map<string, Orientation>, projectByName: map<string, string>)

  const EMPTY_INDEX: OrderIndex := OrderIndex(map[], {}, map[], map[])

  /** `(meta?.project ? String(meta.project).trim() : '') || null`. */
  function ProjectOf(p: Option<string>): (r: Option<string>)
    ensures r.Some? ==> r.value != [] && Trimmed(r.value)
    ensures p.None? ==> r.None?
    ensures p.Some? ==> r == (if Trim(p.value) == [] then None else Some(Trim(p.value)))
  {
    match p
    case None => None
    case Some(s) =>
      TrimResult(s);
      if Trim(s) == [] then None else Some(Trim(s))
  }

  /** The four values one sidecar contributes (lines 232-236): its order,
      orientation and project, and the image file its link names. */
  datatype Reading = Reading(ord: ExtInt, orient: Option<Orientation>, proj: Option<string>,
                             exact: Option<string>)

  function ReadMeta(m: SidecarMeta): Reading
  {
    Reading(ToOrderNum(m.orderFlag), NormalizeOrientation(m.orientation), ProjectOf(m.project),
            FilenameFromLinkedImage(m.linkedImage))
  }

  /** The loader composed with the reading: `None` where the download or
      the parse throws. */
  function ReadingsOf(load: FolderEntry -> Option<SidecarMeta>): FolderEntry -> Option<Reading>
  {
    f => if load(f).Some? then Some(ReadMeta(load(f).value)) else None
  }

  /** What `assign` does for one name. */
  function AssignName(idx: OrderIndex, n: string, ord: ExtInt, orient: Option<Orientation>,
                      proj: Option<string>): OrderIndex
  {
    OrderIndex(
      idx.ordByName[n := ord],
      if ord == Fin(0) then idx.zeroNames + {n} else idx.zeroNames,
      if orient.Some? then idx.orientationByName[n := orient.value] else idx.orientationByName,
      if proj.Some? then idx.projectByName[n := proj.value] else idx.projectByName)
  }

  /** `assign` over a list of names: each gets the order, and the
      orientation and the project when these are not null; order 0 also
      records the name in `zeroNames`. Names not listed keep everything. */
  function AssignAll(idx: OrderIndex, names: seq<string>, ord: ExtInt,
                     orient: Option<Orientation>, proj: Option<string>): (r: OrderIndex)
    ensures forall n :: n in r.ordByName <==> n in idx.ordByName || n in names
    ensures forall n | n in names :: r.ordByName[n] == ord
    ensures forall n | n in idx.ordByName && n !in names :: r.ordByName[n] == idx.ordByName[n]
    ensures forall n :: n in r.zeroNames <==> n in idx.zeroNames || (ord == Fin(0) && n in names)
    ensures forall n :: n in r.orientationByName <==>
              n in idx.orientationByName || (orient.Some? && n in names)
    ensures forall n | n in r.orientationByName ::
              r.orientationByName[n] == if orient.Some? && n in names then orient.value
                                        else idx.orientationByName[n]
    ensures forall n :: n in r.projectByName <==>
              n in idx.projectByName || (proj.Some? && n in names)
    ensures forall n | n in r.projectByName ::
              r.projectByName[n] == if proj.Some? && n in names then proj.value
                                    else idx.projectByName[n]
    decreases |names|
  {
    if names == [] then idx
    else
      var init := names[..|names| - 1];
      var last := names[|names| - 1];
      assert names == init + [last];
      AssignName(AssignAll(idx, init, ord, orient, proj), last, ord, orient, proj)
  }

  /** One sidecar's effect; one that failed to load changes nothing. */
  function ApplySidecar(lk: Lookups, idx: OrderIndex, sidecarName: string, rd: Option<Reading>)
    : OrderIndex
  {
    match rd
    case None => idx
    case Some(r) => AssignAll(idx, Targets(lk, sidecarName, r.exact), r.ord, r.orient, r.proj)
  }

  /** The sidecars' effects, applied in order. */
  function ApplyAll(lk: Lookups, sidecars: seq<FolderEntry>, read: FolderEntry -> Option<Reading>)
    : OrderIndex
  {
    if sidecars == [] then EMPTY_INDEX
    else
      var last := sidecars[|sidecars| - 1];
      ApplySidecar(lk, ApplyAll(lk, sidecars[..|sidecars| - 1], read), last.name, read(last))
  }

  lemma {:induction false} ApplyAllStep(lk: Lookups, sidecars: seq<FolderEntry>, i: nat,
                                        read: FolderEntry -> Option<Reading>)
    requires i < |sidecars|
    ensures ApplyAll(lk, sidecars[..i + 1], read)
            == ApplySidecar(lk, ApplyAll(lk, sidecars[..i], read), sidecars[i].name, read(sidecars[i]))
  {
    assert sidecars[..i + 1][..i] == sidecars[..i];
  }

  /** The value `buildOrderIndexFromSidecars(entries)` resolves to. */
  function OrderIndexOf(entries: seq<FolderEntry>, load: FolderEntry -> Option<SidecarMeta>): OrderIndex
  {
    ApplyAll(LookupsOf(Images(entries)), Sidecars(entries), ReadingsOf(load))
  }

  /** The index's four tables agree: `zeroNames` and the two optional
      tables only hold names that have an order, and a name whose order is
      0 is in `zeroNames`. */
  predicate Coherent(idx: OrderIndex)
  {
    (forall n | n in idx.zeroNames :: n in idx.ordByName)
    && (forall n | n in idx.orientationByName :: n in idx.ordByName)
    && (forall n | n in idx.projectByName :: n in idx.ordByName)
    && (forall n | n in idx.ordByName && idx.ordByName[n] == Fin(0) :: n in idx.zeroNames)
  }

  lemma {:induction false} AssignAllCoherent(idx: OrderIndex, names: seq<string>, ord: ExtInt,
                                             orient: Option<Orientation>, proj: Option<string>)
    requires Coherent(idx)
    ensures Coherent(AssignAll(idx, names, ord, orient, proj))
  {
    var r := AssignAll(idx, names, ord, orient, proj);
    forall n | n in r.ordByName && r.ordByName[n] == Fin(0)
      ensures n in r.zeroNames
    {
      if n !in names {
        assert idx.ordByName[n] == Fin(0);
      }
    }
  }

  lemma {:induction false} ApplyAllCoherent(lk: Lookups, sidecars: seq<FolderEntry>,
                                            read: FolderEntry -> Option<Reading>)
    ensures Coherent(ApplyAll(lk, sidecars, read))
    decreases |sidecars|
  {
    if sidecars != [] {
      var last := sidecars[|sidecars| - 1];
      ApplyAllCoherent(lk, sidecars[..|sidecars| - 1], read);
      var prev := ApplyAll(lk, sidecars[..|sidecars| - 1], read);
      match read(last) {
        case None =>
        case Some(r) => AssignAllCoherent(prev, Targets(lk, last.name, r.exact), r.ord, r.orient, r.proj);
      }
    }
  }

  /** Every index the build returns is coherent; in particular each name
      whose final order is 0 is in `zeroNames`. */
  lemma {:induction false} OrderIndexCoherent(entries: seq<FolderEntry>,
                                              load: FolderEntry -> Option<SidecarMeta>)
    ensures Coherent(OrderIndexOf(entries, load))
  {
    ApplyAllCoherent(LookupsOf(Images(entries)), Sidecars(entries), ReadingsOf(load));
  }

  /** Hence `zeroNames` may hold a name whose final order is not 0: a
      sidecar that flags `x.jpg` with 0 followed by one that flags it
      with 5 leaves the name hidden from the gallery with order 5. */
  lemma {:induction false} ZeroNameOutlivesReorder()
    ensures var idx := AssignAll(AssignAll(EMPTY_INDEX, ["x.jpg"], Fin(0), None, None),
                                 ["x.jpg"], Fin(5), None, None);
            Coherent(idx) && "x.jpg" in idx.zeroNames && idx.ordByName["x.jpg"] == Fin(5)
  {
    var a := AssignAll(EMPTY_INDEX, ["x.jpg"], Fin(0), None, None);
    assert "x.jpg" in ["x.jpg"];
    assert "x.jpg" in a.zeroNames;
  }

  /** A name once in `zeroNames` stays there whatever later sidecars say. */
  lemma {:induction false} ZeroNamesOnlyGrow(lk: Lookups, idx: OrderIndex, sidecarName: string,
                                             rd: Option<Reading>, n: string)
    requires n in idx.zeroNames
    ensures n in ApplySidecar(lk, idx, sidecarName, rd).zeroNames
  {
  }

  /** A sidecar whose link names one of the folder's images exactly writes
      that one name and nothing else. */
  lemma {:induction false} ExactLinkAssignsOnlyIt(imgs: seq<FolderEntry>, idx: OrderIndex,
                                                  sidecarName: string, r: Reading)
    requires r.exact.Some? && r.exact.value in ImageNames(imgs)
    ensures ApplySidecar(LookupsOf(imgs), idx, sidecarName, Some(r)).ordByName
            == idx.ordByName[r.exact.value := r.ord]
  {
    var lk := LookupsOf(imgs);
    var x := r.exact.value;
    ByLowerNameKeys(imgs);
    assert x in lk.byLowerName;
    assert Targets(lk, sidecarName, r.exact) == [x];
    var res := ApplySidecar(lk, idx, sidecarName, Some(r));
    assert res.ordByName.Keys == idx.ordByName.Keys + {x};
  }

  /** Otherwise the sidecar writes exactly the images sharing the base name
      of its link (or of its own name, without a link), and keeps every
      other name's order. */
  lemma {:induction false} BaseGroupAssigned(imgs: seq<FolderEntry>, idx: OrderIndex,
                                             sidecarName: string, r: Reading, n: string)
    requires r.exact.None? || r.exact.value !in ImageNames(imgs)
    ensures var b := if r.exact.Some? then Base(r.exact.value) else Base(Lower(sidecarName));
            var res := ApplySidecar(LookupsOf(imgs), idx, sidecarName, Some(r));
            (n in ImageNames(imgs) && Base(n) == b ==> n in res.ordByName && res.ordByName[n] == r.ord)
            && (!(n in ImageNames(imgs) && Base(n) == b) ==>
                  (n in res.ordByName <==> n in idx.ordByName)
                  && (n in idx.ordByName ==> res.ordByName[n] == idx.ordByName[n]))
  {
    TargetsOfImages(imgs, sidecarName, r.exact, n);
  }

  /** Orientation and project are written only where the sidecar has them. */
  lemma {:induction false} NullFieldsNotWritten(lk: Lookups, idx: OrderIndex, sidecarName: string,
                                                r: Reading)
    requires r.orient.None? && r.proj.None?
    ensures ApplySidecar(lk, idx, sidecarName, Some(r)).orientationByName == idx.orientationByName
    ensures ApplySidecar(lk, idx, sidecarName, Some(r)).projectByName == idx.projectByName
  {
    var res := ApplySidecar(lk, idx, sidecarName, Some(r));
    assert res.orientationByName.Keys == idx.orientationByName.Keys;
    assert res.projectByName.Keys == idx.projectByName.Keys;
  }

  /** A sidecar that fails to load or parse can be removed from the listing
      without changing the index. */
  lemma {:induction false} FailedSidecarIgnored(lk: Lookups, s1: seq<FolderEntry>, f: FolderEntry,
                                                s2: seq<FolderEntry>,
                                                read: FolderEntry -> Option<Reading>)
    requires read(f).None?
    ensures ApplyAll(lk, s1 + [f] + s2, read) == ApplyAll(lk, s1 + s2, read)
    decreases |s2|
  {
    if s2 == [] {
      assert s1 + [f] + s2 == s1 + [f];
      assert (s1 + [f])[..|s1|] == s1;
      assert s1 + s2 == s1;
    } else {
      var init := s2[..|s2| - 1];
      FailedSidecarIgnored(lk, s1, f, init, read);
      assert (s1 + [f] + s2)[..|s1 + [f] + s2| - 1] == s1 + [f] + init;
      assert (s1 + s2)[..|s1 + s2| - 1] == s1 + init;
    }
  }

  /** The same for a whole listing: a sidecar that fails to load leaves
      the four tables as if it were not there. */
  lemma {:induction false} FailedSidecarLeavesIndex(e1: seq<FolderEntry>, f: FolderEntry,
                                                    load: FolderEntry -> Option<SidecarMeta>)
    requires IsSidecar(f) && load(f).None?
    ensures OrderIndexOf(e1 + [f], load) == OrderIndexOf(e1, load)
  {
    ImagesOfAppend(e1, f);
    SidecarsOfAppend(e1, f);
    ImageIsNotJson(f.name);
    assert Images(e1 + [f]) == Images(e1) + [];
    assert Images(e1) + [] == Images(e1);
    var s := Sidecars(e1);
    var read := ReadingsOf(load);
    assert read(f).None?;
    var lk := LookupsOf(Images(e1));
    assert ApplyAll(lk, s + [f], read) == ApplyAll(lk, s, read) by {
      assert (s + [f])[..|s|] == s;
    }
  }

  lemma {:induction false} ImagesOfAppend(entries: seq<FolderEntry>, e: FolderEntry)
    ensures Images(entries + [e]) == Images(entries) + (if IsImageFile(e) then [e] else [])
  {
    assert (entries + [e])[..|entries|] == entries;
  }

  lemma {:induction false} SidecarsOfAppend(entries: seq<FolderEntry>, e: FolderEntry)
    ensures Sidecars(entries + [e]) == Sidecars(entries) + (if IsSidecar(e) then [e] else [])
  {
    assert (entries + [e])[..|entries|] == entries;
  }

  /** Listing `_metadata.json` (or any other file that is neither an image
      nor a sidecar) does not change the index. */
  lemma {:induction false} OtherEntryIgnored(entries: seq<FolderEntry>, e: FolderEntry,
                                             load: FolderEntry -> Option<SidecarMeta>)
    requires !IsImageFile(e) && !IsSidecar(e)
    ensures OrderIndexOf(entries + [e], load) == OrderIndexOf(entries, load)
  {
    ImagesOfAppend(entries, e);
    SidecarsOfAppend(entries, e);
    assert Images(entries) + [] == Images(entries);
    assert Sidecars(entries) + [] == Sidecars(entries);
  }

  /* ------------------------------ the build -------------------------------- */

  /** `assign(candArr)`. */
  method AssignCandidates(idx: OrderIndex, cands: seq<FolderEntry>, ord: ExtInt,
                          orient: Option<Orientation>, proj: Option<string>)
    returns (r: OrderIndex)
    ensures r == AssignAll(idx, Names(cands), ord, orient, proj)
  {
    var ordByName := idx.ordByName;
    var zeroNames := idx.zeroNames;
    var orientationByName := idx.orientationByName;
    var projectByName := idx.projectByName;
    for j := 0 to |cands|
      invariant OrderIndex(ordByName, zeroNames, orientationByName, projectByName)
                == AssignAll(idx, Names(cands)[..j], ord, orient, proj)
    {
      var nameLower := Lower(cands[j].name);
      ordByName := ordByName[nameLower := ord];
      if orient.Some? { orientationByName := orientationByName[nameLower := orient.value]; }
      if proj.Some? { projectByName := projectByName[nameLower := proj.value]; }
      if ord == Fin(0) { zeroNames := zeroNames + {nameLower}; }
      AssignAllStep(idx, Names(cands), j, ord, orient, proj);
    }
    assert Names(cands)[..|cands|] == Names(cands);
    r := OrderIndex(ordByName, zeroNames, orientationByName, projectByName);
  }

  lemma {:induction false} AssignAllStep(idx: OrderIndex, names: seq<string>, j: nat, ord: ExtInt,
                                         orient: Option<Orientation>, proj: Option<string>)
    requires j < |names|
    ensures AssignAll(idx, names[..j + 1], ord, orient, proj)
            == AssignName(AssignAll(idx, names[..j], ord, orient, proj), names[j], ord, orient, proj)
  {
    assert names[..j + 1][..j] == names[..j];
  }

  lemma {:induction false} LookupsStep(images: seq<FolderEntry>, i: nat)
    requires i < |images|
    ensures ByLowerName(images[..i + 1]) == ByLowerName(images[..i])[Lower(images[i].name) := images[i]]
    ensures var m := ByBase(images[..i]);
            var b := Base(Lower(images[i].name));
            ByBase(images[..i + 1]) == m[b := (if b in m then m[b] else []) + [images[i]]]
  {
    var p := images[..i + 1];
    assert p[..i] == images[..i];
    assert p[i] == images[i];
  }

  /** `byLowerName` and `byBase`, filled image by image. */
  method BuildLookups(images: seq<FolderEntry>) returns (lk: Lookups)
    ensures lk == LookupsOf(images)
  {
    var byLowerName: map<string, FolderEntry> := map[];
    var byBase: map<string, seq<FolderEntry>> := map[];
    for i := 0 to |images|
      invariant byLowerName == ByLowerName(images[..i])
      invariant byBase == ByBase(images[..i])
    {
      var img := images[i];
      var lower := Lower(img.name);
      var b := Base(lower);
      byLowerName := byLowerName[lower := img];
      if b !in byBase { byBase := byBase[b := []]; }
      byBase := byBase[b := byBase[b] + [img]];
      LookupsStep(images, i);
    }
    assert images[..|images|] == images;
    lk := Lookups(byLowerName, byBase);
  }

  /** One sidecar's block inside `Promise.all`: read its values, resolve
      its targets and write them. */
  method ApplyOneSidecar(lk: Lookups, idx: OrderIndex, f: FolderEntry, meta: Option<SidecarMeta>)
    returns (r: OrderIndex)
    ensures r == ApplySidecar(lk, idx, f.name, if meta.Some? then Some(ReadMeta(meta.value)) else None)
  {
    r := idx;
    if meta.Some? {
      var m := meta.value;
      var ord := ToOrderNum(m.orderFlag);
      var orient := NormalizeOrientation(m.orientation);
      var proj := ProjectOf(m.project);
      var exact := FilenameFromLinkedImage(m.linkedImage);
      ghost var rd := Reading(ord, orient, proj, exact);
      assert rd == ReadMeta(m);
      if exact.None? {
        r := AssignCandidates(idx, GroupOf(lk, Base(Lower(f.name))), ord, orient, proj);
      } else if exact.value in lk.byLowerName {
        assert [exact.value][..0] == [];
        AssignAllStep(idx, [exact.value], 0, ord, orient, proj);
        r := AssignName(idx, exact.value, ord, orient, proj);
      } else {
        r := AssignCandidates(idx, GroupOf(lk, Base(exact.value)), ord, orient, proj);
      }
    }
  }

  /** `buildOrderIndexFromSidecars(entries)`. */
  method BuildOrderIndexFromSidecars(entries: seq<FolderEntry>, load: FolderEntry -> Option<SidecarMeta>)
    returns (idx: OrderIndex)
    ensures idx == OrderIndexOf(entries, load)
    ensures Coherent(idx)
  {
    var jsonSidecars := Sidecars(entries);
    var imageFiles := Images(entries);
    var lk := BuildLookups(imageFiles);
    idx := EMPTY_INDEX;
    for i := 0 to |jsonSidecars|
      invariant idx == ApplyAll(lk, jsonSidecars[..i], ReadingsOf(load))
    {
      var f := jsonSidecars[i];
      idx := ApplyOneSidecar(lk, idx, f, load(f));
      ApplyAllStep(lk, jsonSidecars, i, ReadingsOf(load));
    }
    assert jsonSidecars[..|jsonSidecars|] == jsonSidecars;
    OrderIndexCoherent(entries, load);
  }

  /* ------------------------- version and cache key ------------------------ */

  /** `e.client_modified || e.server_modified || 0`, as the text
      `Date.parse` sees (`String(0)` is `"0"`). */
  function ModifiedText(e: FolderEntry): string
  {
    Or(e.clientModified, Or(e.serverModified, "0"))
  }

  /** `Date.parse(...) || 0`: NaN counts as 0. */
  function Stamp(parse: string -> Option<int>, e: FolderEntry): int
  {
    match parse(ModifiedText(e))
    case None => 0
    case Some(ms) => ms
  }

  /** The `reduce` with `Math.max` from 0. */
  function MaxStamp(parse: string -> Option<int>, sidecars: seq<FolderEntry>): (r: nat)
    ensures forall i | 0 <= i < |sidecars| :: Stamp(parse, sidecars[i]) <= r
    ensures r == 0 || exists i | 0 <= i < |sidecars| :: Stamp(parse, sidecars[i]) == r
  {
    if sidecars == [] then 0
    else
      var init := sidecars[..|sidecars| - 1];
      var m := MaxStamp(parse, init);
      var t := Stamp(parse, sidecars[|sidecars| - 1]);
      assert forall i | 0 <= i < |init| :: init[i] == sidecars[i];
      if t > m then t else m
  }

  /** `sidecarVersion(entries)`: `"<max time>:<sidecar count>"`. */
  function SidecarVersion(entries: seq<FolderEntry>, parse: string -> Option<int>): string
  {
    var s := Sidecars(entries);
    NatToString(MaxStamp(parse, s)) + ":" + NatToString(|s|)
  }

  /** Two listings share a version exactly when their sidecars have the
      same latest time and the same count. */
  lemma {:induction false} SidecarVersionDistinguishes(a: seq<FolderEntry>, b: seq<FolderEntry>,
                                                       parse: string -> Option<int>)
    ensures SidecarVersion(a, parse) == SidecarVersion(b, parse) <==>
            MaxStamp(parse, Sidecars(a)) == MaxStamp(parse, Sidecars(b))
            && |Sidecars(a)| == |Sidecars(b)|
  {
    var ma := NatToString(MaxStamp(parse, Sidecars(a)));
    var mb := NatToString(MaxStamp(parse, Sidecars(b)));
    var ca := NatToString(|Sidecars(a)|);
    var cb := NatToString(|Sidecars(b)|);
    if SidecarVersion(a, parse) == SidecarVersion(b, parse) {
      assert ':' !in ma && ':' !in mb;
      assert ma + [':'] + ca == mb + [':'] + cb;
      SplitAtSeparator(ma, ca, mb, cb, ':');
      NatToStringInjective(MaxStamp(parse, Sidecars(a)), MaxStamp(parse, Sidecars(b)));
      NatToStringInjective(|Sidecars(a)|, |Sidecars(b)|);
    }
  }

  /** Adding or removing a sidecar always changes the version. */
  lemma {:induction false} NewSidecarChangesVersion(entries: seq<FolderEntry>, e: FolderEntry,
                                                    parse: string -> Option<int>)
    requires IsSidecar(e)
    ensures SidecarVersion(entries + [e], parse) != SidecarVersion(entries, parse)
  {
    SidecarsOfAppend(entries, e);
    SidecarVersionDistinguishes(entries + [e], entries, parse);
  }

  /** Images do not enter the version: new photos without a new sidecar
      leave the cached index in place. */
  lemma {:induction false} ImageKeepsVersion(entries: seq<FolderEntry>, e: FolderEntry,
                                             parse: string -> Option<int>)
    requires IsImageFile(e)
    ensures SidecarVersion(entries + [e], parse) == SidecarVersion(entries, parse)
  {
    SidecarsOfAppend(entries, e);
    ImageIsNotJson(e.name);
    assert Sidecars(entries) + [] == Sidecars(entries);
  }

  /** `ordidx:<folder path, lower-cased>:<version>`. */
  function OrderIndexKey(folder: FolderEntry, entries: seq<FolderEntry>,
                         parse: string -> Option<int>): string
  {
    "ordidx:" + Lower(Or(folder.pathLower, folder.pathDisplay)) + ":" + SidecarVersion(entries, parse)
  }

  /** `getSidecarIndexForFolder(folder, entries)` over `ORDER_INDEX_CACHE`:
      a live entry under the key is returned as it is; otherwise the index
      is built and stored for thirty minutes. `now` is the clock at the
      lookup and `later` the clock once the build has been awaited, which is
      when the entry's expiry is computed. */
  method GetSidecarIndexForFolder(cache: TtlCache<OrderIndex>, folder: FolderEntry,
                                  entries: seq<FolderEntry>, load: FolderEntry -> Option<SidecarMeta>,
                                  parse: string -> Option<int>, now: int, later: int)
    returns (idx: OrderIndex)
    requires !cache.zeroNeverExpires
    modifies cache
    ensures var key := OrderIndexKey(folder, entries, parse);
            if Live(old(cache.entries), key, now, false) then
              idx == old(cache.entries)[key].value && cache.entries == old(cache.entries)
            else
              idx == OrderIndexOf(entries, load)
              && cache.entries == Write(old(cache.entries), key, idx, ORDER_INDEX_TTL_MS, later)
  {
    var ordKey := OrderIndexKey(folder, entries, parse);
    var hit := cache.Get(ordKey, now);
    if hit.Some? {
      idx := hit.value;
    } else {
      idx := BuildOrderIndexFromSidecars(entries, load);
      cache.Set(ordKey, idx, ORDER_INDEX_TTL_MS, later);
      assert cache.entries == Write(old(cache.entries), ordKey, idx, ORDER_INDEX_TTL_MS, later);
    }
  }

  /** A second lookup within thirty minutes finds what the first stored. */
  lemma {:induction false} IndexCachedForTtl(m: map<string, Entry<OrderIndex>>, key: string,
                                             idx: OrderIndex, now: int, later: int)
    requires later <= now + ORDER_INDEX_TTL_MS
    ensures Read(Write(m, key, idx, ORDER_INDEX_TTL_MS, now), key, later, false).0 == Some(idx)
  {
    WriteThenRead(m, key, idx, ORDER_INDEX_TTL_MS, now, later, false);
  }
}
