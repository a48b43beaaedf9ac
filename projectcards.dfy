/** The home page's project cards (dropboxRoutes.js lines 423-491). A card
    is built fast from the folder listing: the metadata of its
    `_metadata.json`, the first image as thumbnail and the order flag as a
    number. `CARD_CACHE` keeps one record `{card, staleAfter, building}`
    per folder and serves it stale-while-revalidate: a record whose
    `staleAfter` lies in the future is served as is, one that is stale but
    being rebuilt is served as is too, and anything else triggers a
    rebuild. While the rebuild is awaited a placeholder holding the old
    card and marked `building` is served to every other request, however
    long the build takes; its four-hour `staleAfter` only matters once the
    mark is gone. After a successful
    build a background refinement replaces the thumbnail by the image the
    sidecars rank first.

    The folder listing is the oracle `list` (`None` when `listFolderAll`
    throws), reading `_metadata.json` is the oracle `readMeta` (`None`
    when it is missing, unparsable or throws), sidecar loading is the
    oracle `load` of the order index, `naturalCompare` is `cmp`, and the
    two readings of `_now()` around the awaited build are `now` and
    `later`. */
module ProjectCards {

  import opened Wrappers
  import opened Text
  import opened Normalize
  import opened OrderIndex
  import opened Gallery
  import opened ThumbPath

  /** `CARD_TTL_MS`: thirty minutes. */
  const CARD_TTL_MS: int := 30 * 60 * 1000
  /** `CARD_STALE_GRACE_MS`: four hours. */
  const CARD_STALE_GRACE_MS: int := 4 * 60 * 60 * 1000

  /* ------------------------------ the fast card ---------------------------- */

  /** The parsed `_metadata.json`: its `order_flag`, read as `String(x)`
      when present, and the object's other fields, which the card carries
      along untouched. */
  datatype Metadata = Metadata(orderFlag: Option<string>, fields: map<string, string>)

  datatype Card = Card(
    id: string, name: string, path: string, thumbnail: Option<string>,
    metadata: Option<Metadata>, order: Option<int>)

  /** What `buildProjectCardFast` resolves to: the card and the listing it
      was built from. */
  datatype Built = Built(card: Card, entries: seq<FolderEntry>)

  /** `entries.find(p)`: the index of the first entry satisfying `p`. */
  function Find(entries: seq<FolderEntry>, p: FolderEntry -> bool, from: nat): (r: Option<nat>)
    requires from <= |entries|
    ensures r.Some? ==> from <= r.value < |entries| && p(entries[r.value])
                        && forall i | from <= i < r.value :: !p(entries[i])
    ensures r.None? ==> forall i | from <= i < |entries| :: !p(entries[i])
    decreases |entries| - from
  {
    if from == |entries| then None
    else if p(entries[from]) then Some(from)
    else Find(entries, p, from + 1)
  }

  predicate IsMetadataFile(e: FolderEntry)
  {
    e.tag == File && e.name == METADATA_FILE
  }

  /** `e.path_lower || e.path_display`, the path a thumbnail URL encodes. */
  function ImagePath(e: FolderEntry): string
  {
    Or(e.pathLower, e.pathDisplay)
  }

  /** The thumbnail URL of an image, at the default size. */
  function ThumbOf(e: FolderEntry): string
  {
    MakeThumbUrl(ImagePath(e), DEFAULT_THUMB)
  }

  /** `Number.isFinite(n) ? n : null` on an order key. */
  function FiniteOrNull(k: ExtInt): (r: Option<int>)
  {
    match k
    case Fin(n) => Some(n)
    case Inf => None
  }

  /** The card `buildProjectCardFast` puts together from a listing. */
  function FastCard(folder: FolderEntry, entries: seq<FolderEntry>,
                    readMeta: FolderEntry -> Option<Metadata>): Card
  {
    var mf := Find(entries, IsMetadataFile, 0);
    var metadata := if mf.Some? then readMeta(entries[mf.value]) else None;
    var fi := Find(entries, IsImageFile, 0);
    var thumb := if fi.Some? then Some(ThumbOf(entries[fi.value])) else None;
    var orderNumeric := ToOrderNum(if metadata.Some? then metadata.value.orderFlag else None);
    Card(folder.id, folder.name, folder.pathDisplay, thumb, metadata, FiniteOrNull(orderNumeric))
  }

  /** `buildProjectCardFast(folder)`: `None` when listing the folder throws;
      otherwise the card names the folder and comes with its listing. */
  function BuildProjectCardFast(folder: FolderEntry, list: string -> Option<seq<FolderEntry>>,
                                readMeta: FolderEntry -> Option<Metadata>): (r: Option<Built>)
    ensures r.None? <==> list(folder.pathLower).None?
    ensures r.Some? ==> r.value.entries == list(folder.pathLower).value
    ensures r.Some? ==> r.value.card.id == folder.id && r.value.card.name == folder.name
                        && r.value.card.path == folder.pathDisplay
  {
    match list(folder.pathLower)
    case None => None
    case Some(entries) => Some(Built(FastCard(folder, entries, readMeta), entries))
  }

  /** The `b64` path parameter of a thumbnail URL: what follows the route
      and precedes the query. */
  function RouteKey(url: string): Option<string>
  {
    var p := BeforeFirst(url, '?');
    if |p| >= |THUMB_ROUTE| && p[..|THUMB_ROUTE|] == THUMB_ROUTE then Some(p[|THUMB_ROUTE|..])
    else None
  }

  /** A thumbnail URL leads the thumb route back to the image's path. */
  lemma {:induction false} ThumbOfDecodes(e: FolderEntry)
    ensures RouteKey(ThumbOf(e)).Some?
    ensures PathOfThumbKey(RouteKey(ThumbOf(e)).value) == Some(ImagePath(e))
  {
    var k := ThumbKey(ImagePath(e));
    ThumbUrlPath(ImagePath(e), DEFAULT_THUMB);
    assert (THUMB_ROUTE + k)[..|THUMB_ROUTE|] == THUMB_ROUTE;
    assert (THUMB_ROUTE + k)[|THUMB_ROUTE|..] == k;
    ThumbKeyRoundTrip(ImagePath(e));
  }

  /** The fast card's thumbnail is missing exactly when the listing holds
      no image file; otherwise it shows the first image file listed. */
  lemma {:induction false} FastCardThumbnail(folder: FolderEntry, entries: seq<FolderEntry>,
                                             readMeta: FolderEntry -> Option<Metadata>)
    ensures var c := FastCard(folder, entries, readMeta);
            c.thumbnail.None? <==> forall e | e in entries :: !IsImageFile(e)
    ensures var c := FastCard(folder, entries, readMeta);
            c.thumbnail.Some? ==>
              exists i | 0 <= i < |entries| ::
                IsImageFile(entries[i]) && (forall j | 0 <= j < i :: !IsImageFile(entries[j]))
                && RouteKey(c.thumbnail.value).Some?
                && PathOfThumbKey(RouteKey(c.thumbnail.value).value) == Some(ImagePath(entries[i]))
  {
    var fi := Find(entries, IsImageFile, 0);
    if fi.Some? {
      ThumbOfDecodes(entries[fi.value]);
    } else {
      forall e | e in entries
        ensures !IsImageFile(e)
      {
        var i :| 0 <= i < |entries| && entries[i] == e;
      }
    }
  }

  /** The card's metadata is that of the first `_metadata.json` file, and
      a folder without one has neither metadata nor order. */
  lemma {:induction false} FastCardMetadata(folder: FolderEntry, entries: seq<FolderEntry>,
                                            readMeta: FolderEntry -> Option<Metadata>)
    ensures var c := FastCard(folder, entries, readMeta);
            (forall e | e in entries :: !IsMetadataFile(e)) ==> c.metadata.None? && c.order.None?
    ensures var c := FastCard(folder, entries, readMeta);
            c.metadata.Some? ==>
              exists i | 0 <= i < |entries| ::
                IsMetadataFile(entries[i]) && (forall j | 0 <= j < i :: !IsMetadataFile(entries[j]))
                && c.metadata == readMeta(entries[i])
  {
    var mf := Find(entries, IsMetadataFile, 0);
    if mf.Some? {
      assert entries[mf.value] in entries;
    }
  }

  /** A decimal `order_flag` becomes the card's order; a missing one or one
      without digits gives no order. */
  lemma {:induction false} FastCardOrder(folder: FolderEntry, entries: seq<FolderEntry>,
                                         readMeta: FolderEntry -> Option<Metadata>, ds: string)
    requires ds != [] && forall i | 0 <= i < |ds| :: IsDigit(ds[i])
    ensures var c := FastCard(folder, entries, readMeta);
            c.metadata.Some? && c.metadata.value.orderFlag == Some(ds) ==>
              c.order == Some(DecimalValue(ds) as int)
    ensures var c := FastCard(folder, entries, readMeta);
            c.metadata.Some? && c.metadata.value.orderFlag.None? ==> c.order.None?
  {
    ToOrderNumOfDecimal(ds);
  }

  /* ------------------------------ the SWR record --------------------------- */

  datatype Record = Record(card: Option<Card>, staleAfter: int, building: bool)

  /** What one `getProjectCard` call ends with: the card it resolves to,
      the cache afterwards, and the listing handed to the background
      refinement when one is scheduled. */
  datatype Outcome = Outcome(card: Option<Card>, records: map<string, Record>,
                             refine: Option<seq<FolderEntry>>)

  /** Whether the record for `key` is served as is at `now`: fresh, or
      stale but being rebuilt. */
  predicate Serves(records: map<string, Record>, key: string, now: int)
  {
    key in records && (now < records[key].staleAfter || records[key].building)
  }

  /** `cached?.card || null`. */
  function PreviousCard(records: map<string, Record>, key: string): Option<Card>
  {
    if key in records then records[key].card else None
  }

  /** The placeholder a rebuild started at `now` leaves while it is
      awaited. */
  function Pending(records: map<string, Record>, key: string, now: int): map<string, Record>
  {
    records[key := Record(PreviousCard(records, key), now + CARD_STALE_GRACE_MS, true)]
  }

  /** The whole call, with `build` the outcome of the fast build. */
  function Request(records: map<string, Record>, key: string, now: int, later: int,
                   build: Option<Built>): Outcome
  {
    if Serves(records, key, now) then Outcome(records[key].card, records, None)
    else
      var card := if build.Some? then Some(build.value.card) else PreviousCard(records, key);
      Outcome(card, Pending(records, key, now)[key := Record(card, later + CARD_TTL_MS, false)],
              if build.Some? then Some(build.value.entries) else None)
  }

  /** `rec.building = b` on the record for `key`, if there is one. */
  function Flagged(records: map<string, Record>, key: string, b: bool): map<string, Record>
  {
    if key in records then records[key := records[key].(building := b)] else records
  }

  /** `cache.card.thumbnail = thumb`, when there is a thumbnail to set, a
      record and a card in it. A record without a card makes the
      assignment throw a `TypeError`, which the surrounding `catch`
      absorbs, so it stays as it is. */
  function WithThumbnail(records: map<string, Record>, key: string, thumb: Option<string>)
    : map<string, Record>
  {
    if thumb.Some? && key in records && records[key].card.Some? then
      records[key := records[key].(card := Some(records[key].card.value.(thumbnail := thumb)))]
    else records
  }

  /** The thumbnail the refinement settles on: that of the first zero
      image, else of the first image in sidecar-then-name order. */
  function RefinedThumbnail(entries: seq<FolderEntry>, load: FolderEntry -> Option<SidecarMeta>,
                            cmp: (string, string) -> int): Option<string>
  {
    var idx := OrderIndexOf(entries, load);
    match ChooseCardImage(entries, idx.ordByName, idx.zeroNames, cmp)
    case None => None
    case Some(e) => Some(ThumbOf(e))
  }

  /** `CARD_CACHE`. */
  class CardCache {
    var records: map<string, Record>

    constructor ()
      ensures records == map[]
    {
      records := map[];
    }

    /** `getProjectCard(folder)`: the record's card while it serves, and a
        rebuild otherwise. The returned listing is the one the scheduled
        refinement receives. */
    method GetProjectCard(folder: FolderEntry, list: string -> Option<seq<FolderEntry>>,
                          readMeta: FolderEntry -> Option<Metadata>, now: int, later: int)
      returns (card: Option<Card>, refine: Option<seq<FolderEntry>>)
      modifies this
      ensures Outcome(card, records, refine)
              == Request(old(records), folder.pathLower, now, later,
                         BuildProjectCardFast(folder, list, readMeta))
    {
      var key := folder.pathLower;
      if key in records {
        var cached := records[key];
        if now < cached.staleAfter {
          return cached.card, None;
        }
        if cached.building {
          return cached.card, None;
        }
      }
      var prev := if key in records then records[key].card else None;
      records := records[key := Record(prev, now + CARD_STALE_GRACE_MS, true)];
      var built := BuildProjectCardFast(folder, list, readMeta);
      if built.Some? {
        card, refine := Some(built.value.card), Some(built.value.entries);
      } else {
        card, refine := prev, None;
      }
      records := records[key := Record(card, later + CARD_TTL_MS, false)];
    }

    /** `rec.building = b` inside the scheduled callback. */
    method SetBuilding(key: string, b: bool)
      modifies this
      ensures records == Flagged(old(records), key, b)
    {
      if key in records {
        records := records[key := records[key].(building := b)];
      }
    }

    /** The image `refineProjectCardFromSidecars` picks for the card. */
    static method ChooseImage(entries: seq<FolderEntry>, idx: OrderIndex, cmp: (string, string) -> int)
      returns (chosen: Option<FolderEntry>)
      ensures chosen == ChooseCardImage(entries, idx.ordByName, idx.zeroNames, cmp)
    {
      chosen := FirstZeroImage(entries, idx.zeroNames);
      if chosen.None? {
        var orderedImages := SortAndFilterImagesByName(entries, idx.ordByName, idx.zeroNames, cmp);
        if orderedImages != [] {
          chosen := Some(orderedImages[0]);
        }
      }
    }

    /** `if (cache.card?.thumbnail !== refinedThumb) cache.card.thumbnail =
        refinedThumb`, with the `TypeError` of a missing card caught. */
    method PatchThumbnail(key: string, refinedThumb: string)
      modifies this
      ensures records == WithThumbnail(old(records), key, Some(refinedThumb))
    {
      if key !in records {
        return;
      }
      var cache := records[key];
      if cache.card.None? {
        return;
      }
      if cache.card.value.thumbnail != Some(refinedThumb) {
        records := records[key := cache.(card := Some(cache.card.value.(thumbnail := Some(refinedThumb))))];
      }
    }

    /** `refineProjectCardFromSidecars(folder, entries)`. */
    method RefineProjectCardFromSidecars(folder: FolderEntry, entries: seq<FolderEntry>,
                                         load: FolderEntry -> Option<SidecarMeta>,
                                         cmp: (string, string) -> int)
      modifies this
      ensures records == WithThumbnail(old(records), folder.pathLower,
                                       RefinedThumbnail(entries, load, cmp))
    {
      var idx := BuildOrderIndexFromSidecars(entries, load);
      var chosen := ChooseImage(entries, idx, cmp);
      if chosen.None? {
        return;
      }
      PatchThumbnail(folder.pathLower, ThumbOf(chosen.value));
    }

    /** The `setTimeout` callback: flag the record as building, refine, and
        clear the flag again. */
    method RefineInBackground(folder: FolderEntry, entries: seq<FolderEntry>,
                              load: FolderEntry -> Option<SidecarMeta>,
                              cmp: (string, string) -> int)
      modifies this
      ensures records == Flagged(WithThumbnail(old(records), folder.pathLower,
                                               RefinedThumbnail(entries, load, cmp)),
                                 folder.pathLower, false)
    {
      SetBuilding(folder.pathLower, true);
      RefineProjectCardFromSidecars(folder, entries, load, cmp);
      SetBuilding(folder.pathLower, false);
      RefineUnderFlag(old(records), folder.pathLower, RefinedThumbnail(entries, load, cmp));
    }
  }

  /* --------------------------------- lemmas -------------------------------- */

  /** Raising the flag before the refinement does not change what it
      does, so only the final `building = false` remains. */
  lemma {:induction false} RefineUnderFlag(records: map<string, Record>, key: string,
                                           thumb: Option<string>)
    ensures Flagged(WithThumbnail(Flagged(records, key, true), key, thumb), key, false)
            == Flagged(WithThumbnail(records, key, thumb), key, false)
  {
  }

  /** A record with `now < staleAfter` is served unchanged: no build, no
      refinement, the cache as it was. */
  lemma {:induction false} FreshRecordServed(records: map<string, Record>, key: string, now: int,
                                             later: int, build: Option<Built>)
    requires key in records && now < records[key].staleAfter
    ensures Request(records, key, now, later, build) == Outcome(records[key].card, records, None)
  {
  }

  /** A stale record that is being rebuilt is served as is, without
      starting another build. */
  lemma {:induction false} BuildingRecordServed(records: map<string, Record>, key: string,
                                                now: int, later: int, build: Option<Built>)
    requires key in records && records[key].building
    ensures Request(records, key, now, later, build) == Outcome(records[key].card, records, None)
  {
  }

  /** Any other call rebuilds: the record then holds the new card, or the
      previous card (none if there was none) when the build failed, is
      fresh for `CARD_TTL_MS` from `later` and not building; the
      refinement is scheduled exactly when the build succeeded, and no
      other folder's record changes. */
  lemma {:induction false} RebuildRecord(records: map<string, Record>, key: string, now: int,
                                         later: int, build: Option<Built>)
    requires !Serves(records, key, now)
    ensures var r := Request(records, key, now, later, build);
            r.records.Keys == records.Keys + {key}
            && r.records[key] == Record(r.card, later + CARD_TTL_MS, false)
            && (forall k | k in records && k != key :: r.records[k] == records[k])
            && (build.Some? ==> r.card == Some(build.value.card) && r.refine == Some(build.value.entries))
            && (build.None? ==> r.card == (if key in records then records[key].card else None)
                                && r.refine.None?)
  {
  }

  /** The card a call resolves to is the one the cache holds afterwards,
      and a folder that had a card never loses it. */
  lemma {:induction false} ServedIsCached(records: map<string, Record>, key: string, now: int,
                                          later: int, build: Option<Built>)
    ensures var r := Request(records, key, now, later, build);
            key in r.records && r.records[key].card == r.card
    ensures var r := Request(records, key, now, later, build);
            key in records && records[key].card.Some? ==> r.card.Some?
  {
  }

  /** Requests that arrive while a rebuild is awaited, however late, get
      the previous card and start no build of their own: a record marked
      `building` is served whatever its `staleAfter`. */
  lemma {:induction false} PendingServesPrevious(records: map<string, Record>, key: string,
                                                 now: int, t: int, later: int,
                                                 build: Option<Built>)
    ensures var p := Pending(records, key, now);
            Request(p, key, t, later, build)
            == Outcome(if key in records then records[key].card else None, p, None)
  {
  }

  /** After a rebuild finished at `later`, every request before
      `later + CARD_TTL_MS` is served that same card from the cache. */
  lemma {:induction false} RebuiltCardServedForTtl(records: map<string, Record>, key: string,
                                                   now: int, later: int, build: Option<Built>,
                                                   t: int, later2: int, build2: Option<Built>)
    requires !Serves(records, key, now)
    requires t < later + CARD_TTL_MS
    ensures var r := Request(records, key, now, later, build);
            Request(r.records, key, t, later2, build2) == Outcome(r.card, r.records, None)
  {
    RebuildRecord(records, key, now, later, build);
  }

  /** The refinement only ever changes the thumbnail of the folder's own
      card: the card's other fields, the record's time and flag and every
      other folder's record stay as they were, and a folder with no card
      stays without one. */
  lemma {:induction false} RefineOnlyRetitles(records: map<string, Record>, key: string,
                                              thumb: Option<string>)
    ensures var r := WithThumbnail(records, key, thumb);
            r.Keys == records.Keys
            && (forall k | k in records && k != key :: r[k] == records[k])
            && (key in records ==>
                  r[key].staleAfter == records[key].staleAfter
                  && r[key].building == records[key].building
                  && r[key].card.Some? == records[key].card.Some?
                  && (records[key].card.Some? ==>
                        r[key].card.value == records[key].card.value.(thumbnail := r[key].card.value.thumbnail)
                        && r[key].card.value.thumbnail
                           == (if thumb.Some? then thumb else records[key].card.value.thumbnail)))
  {
  }

  /** The refined thumbnail is missing only for a folder without images.
      Otherwise it shows an image of the folder: a zero image when there
      is one, an image of least sidecar order otherwise. */
  lemma {:induction false} RefinedThumbnailShowsChosen(entries: seq<FolderEntry>,
                                                       load: FolderEntry -> Option<SidecarMeta>,
                                                       cmp: (string, string) -> int)
    requires IsNameOrder(cmp)
    ensures var idx := OrderIndexOf(entries, load);
            var t := RefinedThumbnail(entries, load, cmp);
            (t.None? <==> forall e | e in entries :: !IsImageFile(e))
            && (t.Some? ==>
                  exists e | e in entries ::
                    IsImageFile(e) && t == Some(ThumbOf(e))
                    && RouteKey(t.value).Some?
                    && PathOfThumbKey(RouteKey(t.value).value) == Some(ImagePath(e))
                    && ((exists z | z in entries :: IsImageFile(z) && Lower(z.name) in idx.zeroNames)
                        ==> Lower(e.name) in idx.zeroNames)
                    && (Lower(e.name) !in idx.zeroNames ==>
                          forall x | x in entries && IsImageFile(x) ::
                            ExtLessEq(OrderOf(idx.ordByName, Lower(e.name)),
                                      OrderOf(idx.ordByName, Lower(x.name)))))
  {
    var idx := OrderIndexOf(entries, load);
    ChooseCardImageCorrect(entries, idx.ordByName, idx.zeroNames, cmp);
    var c := ChooseCardImage(entries, idx.ordByName, idx.zeroNames, cmp);
    if c.Some? {
      ThumbOfDecodes(c.value);
    }
  }
}
