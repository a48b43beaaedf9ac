# Portfolio backend: curation and caching core

This project models the curation and caching layer of the portfolio backend's
Dropbox routes (`dropbox-backend/dropboxRoutes.js`) in Dafny and proves
properties of that model. The layer does six things:

- **Expiring caches.** `_CACHE` through `_get`/`_set`, and
  `ORDER_INDEX_CACHE` through `_getOrderIndex`/`_setOrderIndex`. Both are
  modelled by the class `Ttl.TtlCache` over a `map` and an explicit clock
  reading `now`.
- **Value normalisers.** `toOrderNum`, `normalizeOrientation`,
  `seqFromName`, `isImage`/`isJson`/`base`, `safeTime` and
  `wantMimeFromAccept`. These are pure functions in `Normalize`, `Gallery`
  and `Thumbnails`.
- **Linked-image resolution.** `filenameFromLinkedImage` is modelled in
  `LinkedImage`. It rests on exact models of `decodeURIComponent`,
  `URLSearchParams.get` (`Uri`) and UTF-8 (`Utf8`).
- **The sidecar order index.** `buildOrderIndexFromSidecars` is an
  imperative method. It is proved equal to a fold over the sidecars in
  listing order. `sidecarVersion` and `getSidecarIndexForFolder` are in
  `OrderIndex`.
- **Gallery ordering.**
  - `sortAndFilterImagesByName`, `annotateImages` and `sortAnnotated` are
    in `Gallery`.
  - `Array.prototype.sort` is specified as the stable sort (`Sorting`),
    with an in-place array version.
  - Each sort is proved to be a sorted permutation of the visible images,
    under a total-preorder comparator.
- **Thumbnails and project cards.**
  - `makeThumbUrl`, and the thumbnail route's decoding of its path, are in
    `ThumbPath`. They come with a full base64url and UTF-8 round trip.
  - `fetchBaseJpeg`, `maybeTranscode` and `fetchThumbNegotiated` (with its
    fallback-size loop) are in `Thumbnails`.
  - The stale-while-revalidate record of `getProjectCard`, with its
    background `refineProjectCardFromSidecars`, is the class
    `ProjectCards.CardCache`.

Everything that leaves the process is a parameter of the operation that
uses it:

- the Dropbox listing (`list`);
- the download and parse of `_metadata.json` (`readMeta`) and of a sidecar
  (`load`);
- `get_thumbnail_v2` (`api`), and `sharp` (a flag plus the oracle
  `transcode`);
- `Date.parse` (`parse`);
- `naturalCompare` (`cmp`, a total preorder wherever a lemma needs one);
- the clock (`now`, and `later` for a second reading after an awaited call).

A thrown error is `None`.

## Model

| member | source | states |
|---|---|---|
| `Ttl.TtlCache.Get` | dropbox-backend/dropboxRoutes.js:26-31 | `_get`/`_getOrderIndex`: the new map and the result are `Read` of the old map; a miss evicts only the expired key |
| `Ttl.TtlCache.Set` | dropbox-backend/dropboxRoutes.js:32 | `_set`/`_setOrderIndex`: the new map is `Write`, overwriting the key with `expires = now + ttl` |
| `Ttl.Read` | dropbox-backend/dropboxRoutes.js:43-48 | a hit exactly when the entry is live (`expires < now` is stale, and for `_get` an `expires` of 0 never is); a hit returns the stored value and changes nothing; a miss removes only that key |
| `Ttl.Write` | dropbox-backend/dropboxRoutes.js:32 | the key set grows by the key; the key maps to `(value, now + ttl)`; every other key keeps its entry |
| `Ttl.WriteThenRead` | dropbox-backend/dropboxRoutes.js:29-32 | a value written at `now` is read back at every instant up to and including `now + ttl` |
| `Ttl.WriteThenReadExpired` | dropbox-backend/dropboxRoutes.js:29 | after `now + ttl` the read misses and the key is gone |
| `Ttl.ReadKeepsLiveness` | dropbox-backend/dropboxRoutes.js:26-31 | a read never changes which keys are live |
| `Text.Lower` | dropbox-backend/dropboxRoutes.js:115 | `toLowerCase` keeps the length and leaves no upper-case letter |
| `Text.LowerIdempotent` | dropbox-backend/dropboxRoutes.js:194 | lower-casing twice is lower-casing once |
| `Text.TrimResult` | dropbox-backend/dropboxRoutes.js:108 | `trim` yields a string with no white space at either end, and it is a contiguous piece of its input: a prefix of what remains after the leading white space |
| `Text.TrimOfTrimmed` | dropbox-backend/dropboxRoutes.js:184 | `trim` is idempotent |
| `Text.BeforeFirst` | dropbox-backend/dropboxRoutes.js:185 | `split(c)[0]` is the longest prefix without `c` |
| `Text.AfterLast` | dropbox-backend/dropboxRoutes.js:193 | `split(c).pop()` is the longest suffix without `c` |
| `Text.IndexOf` | dropbox-backend/dropboxRoutes.js:186 | `indexOf(c)` is the first position of `c`, or none when `c` is absent |
| `Text.NatToStringValue` | dropbox-backend/dropboxRoutes.js:272 | `String(n)` reads back as `n` |
| `Text.NatToStringInjective` | dropbox-backend/dropboxRoutes.js:272 | distinct numbers render distinctly |
| `Utf8.EncodeChar` | dropbox-backend/dropboxRoutes.js:294 | one to four bytes; ASCII exactly when the encoding is one byte; a multi-byte encoding has a lead byte of at least 0xC2 and continuation bytes after it |
| `Utf8.EncodeConcat` | dropbox-backend/dropboxRoutes.js:294 | encoding distributes over concatenation |
| `Utf8.DecodeOfEncode` | dropbox-backend/dropboxRoutes.js:294-296 | `Buffer.from(s, 'utf8')` followed by either decoder, strict or lenient, gives back `s` |
| `Utf8.LenientExtendsStrict` | dropbox-backend/dropboxRoutes.js:375 | on valid UTF-8, `toString('utf8')` agrees with the strict decoder |
| `Utf8.EncodeAsciiByte` | dropbox-backend/dropboxRoutes.js:184 | an ASCII byte occurs in the encoding exactly when its character occurs in the string |
| `Uri.EscapedBytes` | dropbox-backend/dropboxRoutes.js:184 | a string without `%` reads as its own UTF-8 bytes |
| `Uri.DecodeUriComponentPlain` | dropbox-backend/dropboxRoutes.js:184 | `decodeURIComponent` returns a string without `%` unchanged |
| `Uri.DecodeUriComponentBadEscape` | dropbox-backend/dropboxRoutes.js:184 | a `%` not followed by two hexadecimal digits throws URIError |
| `Uri.EscapedBytesOfPlainPrefix` | dropbox-backend/dropboxRoutes.js:184 | a prefix without `%` contributes exactly its UTF-8 bytes |
| `Uri.PercentDecode` | dropbox-backend/dropboxRoutes.js:189-190 | the URL Standard's percent-decoding leaves bytes without `%` unchanged and never lengthens its input |
| `Uri.PercentDecodeOfEscape` | dropbox-backend/dropboxRoutes.js:189-190 | the escape `%XY` of any byte decodes to that byte, and decoding goes on after it |
| `Uri.PercentDecodeOfLonePercent` | dropbox-backend/dropboxRoutes.js:189-190 | a `%` not followed by two hexadecimal digits is kept as it is |
| `Uri.PlusToSpace` | dropbox-backend/dropboxRoutes.js:189-190 | form decoding leaves no `+` byte: each becomes a space, every other byte is kept |
| `Uri.FormDecodePlain` | dropbox-backend/dropboxRoutes.js:189-190 | a name or value without `+` or `%` is taken literally |
| `Uri.Split` | dropbox-backend/dropboxRoutes.js:185 | `split(c)` gives at least one piece, no piece contains `c`, the first piece is the prefix before the first `c`, and joining the pieces with `c` gives back the input |
| `Uri.AfterFirst` | dropbox-backend/dropboxRoutes.js:189-190 | the value after the first `=`; the piece is the name, `=` and the value |
| `Uri.QueryGetFirst` | dropbox-backend/dropboxRoutes.js:188-190 | `new URLSearchParams("key=v&...").get(key)` is `v` |
| `Normalize.KeepDigitsAndMinus` | dropbox-backend/dropboxRoutes.js:108 | `replace(/[^\d-]/g, '')` keeps only digits and `-`, never lengthening |
| `Normalize.KeepDigitsAndMinusConcat` | dropbox-backend/dropboxRoutes.js:108 | the filter distributes over concatenation |
| `Normalize.KeepDigitsAndMinusOfTrim` | dropbox-backend/dropboxRoutes.js:108 | the `trim` before the filter changes nothing, since white space is filtered anyway |
| `Normalize.KeepDigitsAndMinusOfKept` | dropbox-backend/dropboxRoutes.js:108 | a string of digits and minus signs passes unchanged |
| `Normalize.ToOrderNumReadsKept` | dropbox-backend/dropboxRoutes.js:106-112 | `toOrderNum` depends only on the filtered string |
| `Normalize.ToOrderNumIgnoresNoise` | dropbox-backend/dropboxRoutes.js:108 | inserting a character other than a digit or `-` never changes the order number |
| `Normalize.ToOrderNumSameKept` | dropbox-backend/dropboxRoutes.js:108-111 | two flags with the same digits and minus signs have the same order number |
| `Normalize.ToOrderNumOfDecimal` | dropbox-backend/dropboxRoutes.js:106-112 | a decimal numeral gives its value |
| `Normalize.ToOrderNumOfNegativeDecimal` | dropbox-backend/dropboxRoutes.js:106-112 | `-` followed by a numeral gives the negative value |
| `Normalize.ToOrderNumOfInterleaved` | dropbox-backend/dropboxRoutes.js:108-110 | `"a1b2"` gives 12 |
| `Normalize.ToOrderNumOfLoneMinus` | dropbox-backend/dropboxRoutes.js:110-111 | `"-"` parses to NaN, hence +Infinity |
| `Normalize.ToOrderNumOfNoDigits` | dropbox-backend/dropboxRoutes.js:108-109 | a flag without digits or `-` is +Infinity |
| `Normalize.ToOrderNumOfInnerMinus` | dropbox-backend/dropboxRoutes.js:110 | `parseInt` stops at a later `-`: `"1-2"` gives 1 |
| `Normalize.ParseIntOfDecimal` | dropbox-backend/dropboxRoutes.js:110 | `parseInt` of a decimal numeral is its value |
| `Normalize.ParseIntOfLoneMinus` | dropbox-backend/dropboxRoutes.js:110 | `parseInt("-")` is NaN |
| `Normalize.LeadingDigits` | dropbox-backend/dropboxRoutes.js:110 | the longest digit prefix: all digits, followed by a non-digit or the end |
| `Normalize.ImageIsNotJson` | dropbox-backend/dropboxRoutes.js:113-114 | no name is both an image and a JSON file |
| `Normalize.LastDot` | dropbox-backend/dropboxRoutes.js:115 | the position of the last `.`, or none when there is no `.` |
| `Normalize.BaseOfStemAndExtension` | dropbox-backend/dropboxRoutes.js:115 | `base("stem.ext")` is the lower-cased stem |
| `Normalize.BaseWithoutDot` | dropbox-backend/dropboxRoutes.js:115 | a name without `.` is only lower-cased |
| `Normalize.BaseOfLower` | dropbox-backend/dropboxRoutes.js:115 | `base` ignores case |
| `Normalize.RunLength` | dropbox-backend/dropboxRoutes.js:118 | the length of the maximal digit run starting at a position |
| `Normalize.SeqScanCorrect` | dropbox-backend/dropboxRoutes.js:118-121 | the scan from a run boundary finds the first isolated run of 1 to 6 digits, or none |
| `Normalize.SeqFromNameCorrect` | dropbox-backend/dropboxRoutes.js:117-122 | `seqFromName` is +Infinity exactly when the name has no run of 1 to 6 digits without a digit on either side; otherwise it is the value of the first such run |
| `Normalize.OrientationWords` | dropbox-backend/dropboxRoutes.js:202-204 | `horizontal` and `square` map to themselves, `landscape` to horizontal, `vertical` to null |
| `Normalize.NormalizeOrientationOfPadded` | dropbox-backend/dropboxRoutes.js:201 | surrounding white space is ignored and the word is read lower-cased |
| `Normalize.NormalizeOrientationReadsNames` | dropbox-backend/dropboxRoutes.js:200-205 | each canonical name, padded with white space, normalises to itself |
| `Normalize.NormalizeOrientationLandscape` | dropbox-backend/dropboxRoutes.js:202 | `LANDSCAPE` in any padding is horizontal |
| `Normalize.NormalizeOrientationVertical` | dropbox-backend/dropboxRoutes.js:204 | `vertical` is null |
| `Normalize.NormalizeOrientationCanonical` | dropbox-backend/dropboxRoutes.js:201 | normalising an already trimmed and lower-cased value gives the same result |
| `LinkedImage.ReplaceBadSpaces` | dropbox-backend/dropboxRoutes.js:184 | no non-breaking or odd-width space is left: each becomes a plain space, everything else is kept |
| `LinkedImage.PreviewCandidate` | dropbox-backend/dropboxRoutes.js:186-192 | a `preview=` value is taken only when it ends in a 3–4 character alphanumeric extension |
| `LinkedImage.FromDecoded` | dropbox-backend/dropboxRoutes.js:185-195 | any result has an extension, is lower-case and is trimmed |
| `LinkedImage.FilenameFromLinkedImage` | dropbox-backend/dropboxRoutes.js:181-197 | any result has a 3–4 character extension, is lower-case and trimmed; a missing or empty link gives null |
| `LinkedImage.FilenameOfUndecodable` | dropbox-backend/dropboxRoutes.js:184-196 | a link that `decodeURIComponent` rejects gives null |
| `LinkedImage.FilenameOfPlainLink` | dropbox-backend/dropboxRoutes.js:184-185 | without escapes or odd spaces the link is only trimmed and cut at `#` |
| `LinkedImage.NoPreviewWithoutQuery` | dropbox-backend/dropboxRoutes.js:186-187 | without `?` no preview is taken |
| `LinkedImage.FromDecodedLastSegment` | dropbox-backend/dropboxRoutes.js:193-195 | `dir/name.ext` gives `name.ext` lower-cased |
| `LinkedImage.FromDecodedNoExtension` | dropbox-backend/dropboxRoutes.js:195 | a last segment without an extension gives null |
| `LinkedImage.FromDecodedPreview` | dropbox-backend/dropboxRoutes.js:187-191 | `path?preview=name.ext&...` gives `name.ext` lower-cased |
| `LinkedImage.FilenameOfPlainPath` | dropbox-backend/dropboxRoutes.js:181-197 | an ordinary link `dir/name.ext` gives the lower-cased file name |
| `LinkedImage.CanonicalKeepsExtension` | dropbox-backend/dropboxRoutes.js:191 | trimming and lower-casing keep an extension |
| `OrderIndex.ImagesMembers` | dropbox-backend/dropboxRoutes.js:211-212 | the image files are exactly the files with an image extension |
| `OrderIndex.SidecarsMembers` | dropbox-backend/dropboxRoutes.js:208-209 | the sidecars are exactly the JSON files not named `_metadata.json` |
| `OrderIndex.MetadataIsNotSidecar` | dropbox-backend/dropboxRoutes.js:209 | `_metadata.json` is never a sidecar |
| `OrderIndex.ByLowerNameKeys` | dropbox-backend/dropboxRoutes.js:214-221 | the exact-name lookup holds exactly the lower-cased image names |
| `OrderIndex.GroupMembers` | dropbox-backend/dropboxRoutes.js:215-221 | a basename group holds exactly the images with that basename |
| `OrderIndex.ByBaseGroups` | dropbox-backend/dropboxRoutes.js:215-221 | the basename lookup maps each basename to its group, in listing order |
| `OrderIndex.TargetsOfImages` | dropbox-backend/dropboxRoutes.js:237-256 | a linked name that matches an image targets only it; otherwise the targets are every image sharing the basename of the linked name, or of the sidecar's own name when there is no link |
| `OrderIndex.ProjectOf` | dropbox-backend/dropboxRoutes.js:235 | a present project is its trimmed text, or none when that is empty; an absent one is none; a project is never empty or untrimmed |
| `OrderIndex.AssignAll` | dropbox-backend/dropboxRoutes.js:239-247 | assigned names get the order; other names keep theirs; zero names grow by the assigned names when the order is 0; orientation and project are written only when non-null |
| `OrderIndex.OrderIndexCoherent` | dropbox-backend/dropboxRoutes.js:239-253 | every name whose final order is 0 is in `zeroNames`, and every zero name, orientation and project belongs to a name with an order |
| `OrderIndex.ZeroNameOutlivesReorder` | dropbox-backend/dropboxRoutes.js:241-244 | the converse fails: a name flagged 0 and then 5 stays in `zeroNames` with order 5 |
| `OrderIndex.ZeroNamesOnlyGrow` | dropbox-backend/dropboxRoutes.js:244 | no sidecar removes a zero name |
| `OrderIndex.ExactLinkAssignsOnlyIt` | dropbox-backend/dropboxRoutes.js:249-253 | an exact link changes the order of that image only |
| `OrderIndex.BaseGroupAssigned` | dropbox-backend/dropboxRoutes.js:248-255 | otherwise every image of the basename group gets the order and no other order changes |
| `OrderIndex.NullFieldsNotWritten` | dropbox-backend/dropboxRoutes.js:242-243 | null orientation and project leave those maps alone |
| `OrderIndex.FailedSidecarIgnored` | dropbox-backend/dropboxRoutes.js:257-259 | a sidecar that fails to load or parse leaves all four maps unchanged, wherever it stands |
| `OrderIndex.FailedSidecarLeavesIndex` | dropbox-backend/dropboxRoutes.js:257-259 | adding a failing sidecar to the listing leaves the index unchanged |
| `OrderIndex.OtherEntryIgnored` | dropbox-backend/dropboxRoutes.js:208-212 | an entry that is neither image nor sidecar does not affect the index |
| `OrderIndex.AssignCandidates` | dropbox-backend/dropboxRoutes.js:238-247 | the `assign` loop computes `AssignAll` on the candidates' lower-cased names |
| `OrderIndex.BuildLookups` | dropbox-backend/dropboxRoutes.js:214-221 | the `for` loop builds exactly the exact-name and basename lookups |
| `OrderIndex.ApplyOneSidecar` | dropbox-backend/dropboxRoutes.js:228-259 | one sidecar's block updates the index as `ApplySidecar` says |
| `OrderIndex.BuildOrderIndexFromSidecars` | dropbox-backend/dropboxRoutes.js:207-263 | the result is the fold over the sidecars in listing order, and it is coherent: every name of order 0 is a zero name, and every zero name has an order |
| `OrderIndex.MaxStamp` | dropbox-backend/dropboxRoutes.js:268-271 | the `reduce` is an upper bound of every sidecar's time, and equals 0 or one of them |
| `OrderIndex.SidecarVersionDistinguishes` | dropbox-backend/dropboxRoutes.js:265-273 | two listings share a version exactly when their sidecars have the same latest time and count |
| `OrderIndex.NewSidecarChangesVersion` | dropbox-backend/dropboxRoutes.js:272 | adding a sidecar always changes the version |
| `OrderIndex.ImageKeepsVersion` | dropbox-backend/dropboxRoutes.js:266-267 | adding an image never changes the version |
| `OrderIndex.GetSidecarIndexForFolder` | dropbox-backend/dropboxRoutes.js:591-597 | a live index under `ordidx:<path>:<version>` is returned and nothing changes; otherwise the index is built and stored for thirty minutes from the clock read after the build |
| `OrderIndex.IndexCachedForTtl` | dropbox-backend/dropboxRoutes.js:41-48 | a stored index is found for thirty minutes |
| `Sorting.InsertionSortPermutes` | dropbox-backend/dropboxRoutes.js:279 | the sort is a permutation of its input |
| `Sorting.InsertionSortSorted` | dropbox-backend/dropboxRoutes.js:279 | under a total preorder the result is sorted |
| `Sorting.SortInPlace` | dropbox-backend/dropboxRoutes.js:279 | the in-place array sort leaves the stable sort of the old contents |
| `Sorting.InsertInto` | dropbox-backend/dropboxRoutes.js:279 | one step moves an element into the sorted prefix and leaves the rest |
| `Gallery.UnzeroMembers` | dropbox-backend/dropboxRoutes.js:278 | the zero filter keeps exactly the images whose lower-cased names are not zero names |
| `Gallery.VisibleMembers` | dropbox-backend/dropboxRoutes.js:276-278 | the visible images are exactly the image files that are not zero names |
| `Gallery.SortAndFilterImagesByName` | dropbox-backend/dropboxRoutes.js:275-288 | filters and sorts in place, giving `ImagesByName` |
| `Gallery.NameLeIsPreorder` | dropbox-backend/dropboxRoutes.js:279-286 | the comparator (order, then natural name) is a total preorder |
| `Gallery.ImagesByNameCorrect` | dropbox-backend/dropboxRoutes.js:275-288 | the result is a permutation of the visible images, sorted by the comparator |
| `Gallery.ImagesByNameMembers` | dropbox-backend/dropboxRoutes.js:276-278 | the result holds exactly the visible images |
| `Gallery.ImagesByNameOrdered` | dropbox-backend/dropboxRoutes.js:279-286 | earlier images have no larger order, and on equal orders no larger natural name |
| `Gallery.FirstHasLeastOrder` | dropbox-backend/dropboxRoutes.js:453-454 | when some image is visible, the first one has the least order of all visible images |
| `Gallery.FirstZeroImage` | dropbox-backend/dropboxRoutes.js:451 | `find` for an image whose name is a zero name, or none when there is no such image |
| `Gallery.FirstZeroImageIsFirst` | dropbox-backend/dropboxRoutes.js:451 | it is the first such image in listing order |
| `Gallery.ChooseCardImageCorrect` | dropbox-backend/dropboxRoutes.js:450-455 | an image is chosen exactly when there is one; a zero image is preferred; otherwise the choice has the least order |
| `Gallery.Annotate` | dropbox-backend/dropboxRoutes.js:549-562 | the annotation keeps the entry, and is zero exactly when its name is a zero name |
| `Gallery.AnnotateImagesCorrect` | dropbox-backend/dropboxRoutes.js:546-565 | annotated images are the visible images in listing order, each annotated, none zero |
| `Gallery.UnorderedSortsLast` | dropbox-backend/dropboxRoutes.js:551-567 | an image without an order entry (+Infinity) sorts strictly after every image with a finite order |
| `Gallery.UnparsedTimeSortsLast` | dropbox-backend/dropboxRoutes.js:123-126 | with order and sequence number equal, an image whose time `Date.parse` rejects (+Infinity) sorts strictly after one whose time parses |
| `Gallery.AnnotatedLeIsPreorder` | dropbox-backend/dropboxRoutes.js:566-571 | `sortAnnotated` (order, seq, time, natural name) is a total preorder |
| `Gallery.SortAnnotatedImages` | dropbox-backend/dropboxRoutes.js:546-571 | annotates, then sorts in place, giving `GalleryOrder` |
| `Gallery.GalleryOrderCorrect` | dropbox-backend/dropboxRoutes.js:546-571 | the gallery is a permutation of the annotated images, sorted by `sortAnnotated`; order, then sequence number, are non-decreasing |
| `ThumbPath.SextetValueOfChar` | dropbox-backend/dropboxRoutes.js:375 | each base64 digit reads back as its value |
| `ThumbPath.UnpackOfPack` | dropbox-backend/dropboxRoutes.js:375 | base64 grouping of bytes into sextets is undone by ungrouping |
| `ThumbPath.Base64RoundTrip` | dropbox-backend/dropboxRoutes.js:375 | base64 decoding of a base64 encoding gives the bytes back |
| `ThumbPath.Base64DecodeOfBody` | dropbox-backend/dropboxRoutes.js:374-375 | the unpadded body with any number of `=` appended decodes to the bytes |
| `ThumbPath.ToUrlSafe` | dropbox-backend/dropboxRoutes.js:295 | the URL-safe text holds no `+` and no `/` |
| `ThumbPath.FromUrlSafeOfToUrlSafe` | dropbox-backend/dropboxRoutes.js:374 | undoing the URL-safe form gives back any text without `-` or `_` |
| `ThumbPath.Padded` | dropbox-backend/dropboxRoutes.js:374 | the re-padded text is the input followed by fewer than four `=`, with a length that is a multiple of 4 |
| `ThumbPath.PadToQuad` | dropbox-backend/dropboxRoutes.js:374 | the `while` loop appends `=` until the length is a multiple of 4 |
| `ThumbPath.DecodeThumbKey` | dropbox-backend/dropboxRoutes.js:374-375 | the route's decoding computes `PathOfThumbKey` |
| `ThumbPath.ThumbKeyIsUrlSafe` | dropbox-backend/dropboxRoutes.js:294-295 | the path segment uses only letters, digits, `-` and `_` |
| `ThumbPath.ThumbKeyRoundTrip` | dropbox-backend/dropboxRoutes.js:374-375 | the route decodes the segment `makeThumbUrl` produced to the original `path_lower` |
| `ThumbPath.ThumbUrlPath` | dropbox-backend/dropboxRoutes.js:296 | the URL before `?` is `/api/dropbox/thumb/` followed by the segment |
| `ThumbPath.MakeThumbUrlInjective` | dropbox-backend/dropboxRoutes.js:293-297 | different paths never share a thumbnail URL |
| `ThumbPath.HexUpper` | dropbox-backend/dropboxRoutes.js:296 | the hex digit character reads back as its value |
| `ThumbPath.EscapedBytesOfEscapes` | dropbox-backend/dropboxRoutes.js:296 | `%XY` escapes read back as their bytes |
| `ThumbPath.UriComponentRoundTrip` | dropbox-backend/dropboxRoutes.js:296 | `decodeURIComponent(encodeURIComponent(s))` is `s` |
| `ThumbPath.EncodeUriComponentUnreserved` | dropbox-backend/dropboxRoutes.js:296 | sizes such as `w640h480` are not escaped |
| `Thumbnails.WantMimeOfName` | dropbox-backend/dropboxRoutes.js:342-347 | an Accept header that is exactly a type's name selects that type |
| `Thumbnails.WantMimeOfListed` | dropbox-backend/dropboxRoutes.js:344-345 | an Accept header containing `image/avif` selects AVIF; one containing `image/webp` never selects JPEG |
| `Thumbnails.WantMimeIgnoresCase` | dropbox-backend/dropboxRoutes.js:343 | the header's case does not matter |
| `Thumbnails.MaybeTranscode` | dropbox-backend/dropboxRoutes.js:327-340 | a JPEG result is the input unchanged; otherwise the result is the requested type, produced by `sharp`; when `sharp` succeeds for AVIF or WebP its output is used |
| `Thumbnails.BaseKeysDiffer` | dropbox-backend/dropboxRoutes.js:351 | JPEG keys and negotiated keys never coincide |
| `Thumbnails.BaseJpeg` | dropbox-backend/dropboxRoutes.js:299-324 | a JPEG is obtained exactly when it is cached and live or Dropbox provides it, and it is that JPEG |
| `Thumbnails.FetchBaseJpeg` | dropbox-backend/dropboxRoutes.js:299-324 | the method returns, and leaves in the cache, what `BaseJpeg` says |
| `Thumbnails.BaseJpegCached` | dropbox-backend/dropboxRoutes.js:301-322 | a fetched JPEG is served from the cache for 3.5 hours without asking Dropbox |
| `Thumbnails.FailedTryKeepsOthers` | dropbox-backend/dropboxRoutes.js:315-319 | a failed size changes nothing about the other sizes |
| `Thumbnails.FirstBaseCorrect` | dropbox-backend/dropboxRoutes.js:359-363 | the fallback loop yields nothing exactly when no size is available; otherwise it yields the JPEG of the first available size |
| `Thumbnails.FetchWithFallbacks` | dropbox-backend/dropboxRoutes.js:355-364 | the requested size, then the `for` loop over the fallbacks, computes `Fetched` |
| `Thumbnails.Produce` | dropbox-backend/dropboxRoutes.js:355-367 | the miss path computes `Produced` |
| `Thumbnails.ProducedFromRequested` | dropbox-backend/dropboxRoutes.js:357-366 | when the requested size is available, its JPEG is the one transcoded |
| `Thumbnails.ProducedNothing` | dropbox-backend/dropboxRoutes.js:356-363 | no buffer is served exactly when neither the requested size nor any fallback is available |
| `Thumbnails.FetchThumbNegotiatedAsWritten` | dropbox-backend/dropboxRoutes.js:349-369 | the method as written computes `NegotiatedAsWritten` |
| `Thumbnails.StaleMimeAsWritten` | dropbox-backend/dropboxRoutes.js:352-368 | without `sharp`, a second AVIF request returns the cached JPEG bytes labelled `image/avif` |
| `Thumbnails.FetchThumbNegotiated` | dropbox-backend/dropboxRoutes.js:349-369 | the corrected method computes `Negotiated` |
| `Thumbnails.NegotiatedMimeOfFetch` | dropbox-backend/dropboxRoutes.js:349-369 | on a miss something is served exactly when a JPEG was fetched, and it is that JPEG after `maybeTranscode` |
| `Thumbnails.NegotiatedRepeatStable` | dropbox-backend/dropboxRoutes.js:351-368 | a repeat within 3.5 hours serves the same bytes with the same type as the first response |
| `ProjectCards.Find` | dropbox-backend/dropboxRoutes.js:426 | `entries.find(p)` is the first entry satisfying `p`, or none when no entry does |
| `ProjectCards.BuildProjectCardFast` | dropbox-backend/dropboxRoutes.js:423-446 | no card exactly when the listing fails; otherwise the entries are the listing, and id, name and path come from the folder |
| `ProjectCards.ThumbOfDecodes` | dropbox-backend/dropboxRoutes.js:434 | a card thumbnail decodes to the image's path |
| `ProjectCards.FastCardThumbnail` | dropbox-backend/dropboxRoutes.js:433-434 | no thumbnail exactly when there is no image; otherwise the thumbnail decodes to the first image's path |
| `ProjectCards.FastCardMetadata` | dropbox-backend/dropboxRoutes.js:426-431 | without `_metadata.json`, metadata and order are null; otherwise the metadata is what the first one reads as |
| `ProjectCards.FastCardOrder` | dropbox-backend/dropboxRoutes.js:436-443 | a numeral order flag gives that order; a missing flag gives null |
| `ProjectCards.CardCache.GetProjectCard` | dropbox-backend/dropboxRoutes.js:467-491 | the returned card, the new records and the scheduled refinement are `Request` of the old records |
| `ProjectCards.RebuildRecord` | dropbox-backend/dropboxRoutes.js:474-481 | a rebuild stores `(card, later + CARD_TTL_MS, false)` and touches no other folder; a failed build keeps the previous card or null; refinement is scheduled exactly when the build succeeded |
| `ProjectCards.ServedIsCached` | dropbox-backend/dropboxRoutes.js:467-491 | the served card is the one the record holds afterwards, and a cached card is never lost |
| `ProjectCards.PendingServesPrevious` | dropbox-backend/dropboxRoutes.js:474 | during the build, every request, however late, gets the previous card and starts no second build |
| `ProjectCards.RebuiltCardServedForTtl` | dropbox-backend/dropboxRoutes.js:470-479 | a rebuilt card is served unchanged for thirty minutes |
| `ProjectCards.CardCache.SetBuilding` | dropbox-backend/dropboxRoutes.js:482-487 | sets `building` on an existing record only |
| `ProjectCards.CardCache.ChooseImage` | dropbox-backend/dropboxRoutes.js:451-455 | computes `ChooseCardImage` |
| `ProjectCards.CardCache.PatchThumbnail` | dropbox-backend/dropboxRoutes.js:457-461 | patches the thumbnail of the cached card, if there is one |
| `ProjectCards.CardCache.RefineProjectCardFromSidecars` | dropbox-backend/dropboxRoutes.js:448-465 | the records become `WithThumbnail` of the refined thumbnail |
| `ProjectCards.CardCache.RefineInBackground` | dropbox-backend/dropboxRoutes.js:481-488 | refines under the `building` flag, then clears it |
| `ProjectCards.RefineOnlyRetitles` | dropbox-backend/dropboxRoutes.js:457-461 | refinement changes only the thumbnail of that folder's card |
| `ProjectCards.RefinedThumbnailShowsChosen` | dropbox-backend/dropboxRoutes.js:448-457 | a thumbnail exactly when there is an image; it decodes to an image that is a zero image when one exists, and otherwise one of least order |

## Left out

- The network is left out: the Dropbox HTTP calls, the pagination of
  `listFolderAll` and `get_temporary_link`. Each is an oracle parameter,
  and a failure of any kind is `None`. Fetching the access token
  (`getAccessToken`) is not modelled at all: the model assumes it
  succeeds.
- `Thumbnails.BaseJpeg`: `fetchBaseJpeg` awaits `getAccessToken()` before
  it looks in the cache, so in the source a token failure throws even
  when the JPEG is cached and live. The model serves the cached JPEG
  there.
- Several libraries are oracles or abstract parameters, with no model of
  their own:
  - the JSON repair chain of `cleanJsonString`/`safeParseJson`, and the
    ten-minute cache of `getMetadataFromFileCached`, are the oracle
    `readMeta` or `load`;
  - `naturalCompare` (`Intl` collation) is the comparator `cmp`;
  - `Date.parse` is the oracle `parse`, applied to the text it would see.
    `String(0)` is `"0"`, whatever `parse` makes of it.
- `sharp` is the flag `sharp` and the oracle `transcode`. The quality and
  effort settings are not modelled.
- The Express routes, their headers, the SHA-1 ETag, the `limiter`
  concurrency caps, the home-thumbnail prewarm and its timers, the other
  routes, `server.js` and the frontend are all outside the curation core.
- `toLowerCase` is modelled for ASCII letters only. Unicode case mapping
  is not modelled.
- `Normalize.ToOrderNum`: integers are unbounded. `parseInt` gives a
  double, so in JavaScript a numeral above 2^53 is rounded, and two
  distinct long flags can tie where the model orders them. A numeral of
  more than about 308 digits gives Infinity in JavaScript, where the
  model gives the exact value.
- `OrderIndex.BuildOrderIndexFromSidecars`: the sidecars run under
  `Promise.all`. Each one's assignment block is synchronous, so the fold in
  listing order is faithful. The only exception is which sidecar wins a
  name that two of them assign, which follows the completion order.
- `OrderIndex.Images`: entries are modelled with string fields. The
  fallbacks of `(e.name || '')` for a missing name, and of
  `entries || []`, are covered by the empty string and the empty sequence.
- `ProjectCards.BuildProjectCardFast`: an image entry with neither
  `path_lower` nor `path_display` is not modelled. Entry fields are
  strings, so a missing path is the empty string. In the source,
  `makeThumbUrl(undefined)` throws a TypeError in `Buffer.from`. The
  fast build then fails, and `getProjectCard` keeps the previous card
  and schedules no refinement. The model builds a card whose thumbnail
  encodes the path `""`. The same is true of
  `ProjectCards.CardCache.RefineProjectCardFromSidecars`. There the
  source catches the throw and patches nothing, while the model patches
  in the thumbnail of `""`.
- `Thumbnails.FetchWithFallbacks`: the oracle `api` answers a repeated
  (path, size) the same way. When the requested size is also a fallback
  (`w640h480`, the size of every card and prewarm URL), the source asks
  Dropbox for it a second time. That request is a real retry: a
  timeout, a 5xx status or a token failure may pass on the next try. In
  the model the retry fails again. `Thumbnails.FirstBaseCorrect` and
  `Thumbnails.ProducedNothing` depend on this.
- Strings are sequences of Unicode scalar values. A path with a lone
  surrogate (which `Buffer.from` would replace by U+FFFD) is not modelled.
- `ThumbPath.PathOfThumbKey`: `Buffer.from(b64, 'base64')` skips
  characters outside the alphabet. The model returns `None` for a segment
  that is not valid base64, so it is stricter on malformed URLs.
- `Thumbnails.FetchThumbNegotiated` reads the clock once per call. In the
  source, each `_now()` is taken after an await.
- `Thumbnails.FetchThumbNegotiatedAsWritten` requires two distinct cache
  objects. `_CACHE` is then modelled as two caches, JPEG and negotiated,
  whose keys cannot collide (`Thumbnails.BaseKeysDiffer`). The metadata
  entries that `_CACHE` also holds are inside the `readMeta` oracle.
- `ProjectCards.CardCache.GetProjectCard`: the build is one atomic step
  between the placeholder and the final record. Requests that arrive
  during the await are covered by `ProjectCards.PendingServesPrevious` on
  the placeholder.
- `ProjectCards.CardCache.RefineInBackground` is a method that the caller
  runs after `GetProjectCard`. Its interleaving with other requests, and
  the `setTimeout(…, 0)` that schedules it, are not modelled.
- `ProjectCards.CardCache.GetProjectCard`: callers share each record's
  card object, and the in-place thumbnail patch is visible to everyone
  who received that card. The model's cards are values, so it keeps the
  patch only in the cache.
- Of the parsed `_metadata.json` only `order_flag` is read. The other
  fields of the object are carried along untouched.

## Findings

| source | as written | input that shows it | evidently intended | confidence | as-written member | corrected member |
|---|---|---|---|---|---|---|
| dropbox-backend/dropboxRoutes.js:352-368 | The negotiated cache stores only the bytes, under a key for the wanted type. A hit reports the wanted type. When `sharp` is missing or fails, the stored bytes are the JPEG fallback. | Two requests for one path, both with `Accept: image/avif`, while `sharp` is unavailable. The first is served as JPEG bytes labelled `image/jpeg`. The second is the same bytes labelled `image/avif`. | A hit reports the type of the bytes it stored, so a repeated request is answered exactly like the first. | not executed | `Thumbnails.StaleMimeAsWritten` | `Thumbnails.NegotiatedRepeatStable` |
