# Freedom: models and proofs

A Dafny model of the engines and protocols of the Freedom browser that are more than plumbing: the box blur and its damage rectangle, the HTTP cache in front of the fetcher, keyed readback noise, atomic encrypted files, the in-place UTF-8 sanitiser, paint order, frame pacing, the double buffer, margin collapsing, background geometry and the user-agent sheet. `dafny verify dfyconfig.toml` proves all of it.

Code that works in place is modelled by methods on arrays and classes, proved equal to a specification function; what the code is for is then proved of that function, for every input or every run.

| modules | what they model |
|---|---|
| `BoxSizes`, `Windows`, `BoxLines`, `Planes`, `BoxBlur`, `InkRect`, `InkEdges` | `src/box_blur.c`. `Windows` holds the arithmetic of sliding sums, `Planes` the blur as a function on planes, `InkEdges` what reaches the sides of the damage rectangle, the others the C procedures |
| `Freshness`, `Eviction` | the rules of `src/http_cache.c`: Cache-Control, what may be stored, for how long it is fresh (section 4.2 of RFC 9111), and which files go when the cache is too large |
| `CachedFetch`, `CacheCalls` | `src/cached_fetch.c`: one call, as a specification and as a procedure that owns buffers, and what each kind of call asks, answers and stores in the terms of its callers; validation and freshening follow sections 4.3.1 and 4.3.4 of RFC 9111 |
| `CacheRuns`, `CacheProvenance`, `CacheValidators`, `CacheTransparency`, `CachePartitions`, `CacheExamples` | whole runs of it, under arbitrary evictions and failures: where bodies and headers come from, where validators go, that answers are true on pages that change, that partitions do not see each other; and some concrete runs |
| `Words`, `AntiFp`, `AntiFpVectors` | `src/anti_fp.c`, on 64-bit words written out as integers with their bits; and published values of its generator and hash |
| `FileSystem`, `Kernel`, `DiskStore` | `src/disk_store.c` and the two loops of `include/util.h`, over a file system that tells what processes see from what a crash may leave |
| `Utf8Sanitizer` | the sanitiser of `gui/ui_render.c`, against the encoding of section 3 of RFC 3629 |
| `Compositor` | `src/compositor.c` (Appendix E of CSS 2.1) |
| `Pacer` | `md_pace_due_ms` of `include/media_decoder.h`, in wrap-around arithmetic |
| `ShmSlots` | `include/shm_slots.h`, for any number of slots, with messages in flight |
| `BlockFlow`, `BackgroundLayer`, `TagSheet` | `src/block_flow.c`, and the sheet lookups and background geometry of `src/box_style.c` |
| `Wrappers`, `Doubles` | an option type, and doubles as reals, infinities and NaN |

## Where the code and its documentation disagree

The model follows the code; each of these is a lemma with a concrete input, beside the exact condition under which the documented claim holds.

- `include/box_blur.h:23` calls the ink rectangle the smallest one a blur can change. It is large enough (`InkRect.InkRectIsEnough`). A rectangle that is not clamped is the smallest if and only if the outermost lines of ink arrive at its four sides, each folded through the passes on its own (`InkEdges.RectIsSmallestIff`; side by side in `InkEdges.RightSideIff` and its companions); for any other that is enough (`InkEdges.RectIsSmallestIfAllArrive`). A line with nothing above half the first box width never arrives, so a faint pixel has too large a rectangle (`InkEdges.FaintLineIsLost`, `InkEdges.RectIsNotSmallest`).
- `include/anti_fp.h:87` says that a different key gives a different output. Two keys give the same buffer exactly when they select the same positions (`AntiFp.SameNoiseIff`), which different keys can do (`AntiFp.DifferentKeysMayAgree`), and must do for some two keys at every length below 64 (`AntiFp.SomeKeysShareNoise`).
- `src/block_flow.c:17-20` says that the n-ary collapse and repeated binary calls cannot disagree. All orders and groupings of a list agree exactly when its margins have one sign or there is only one of either sign (`BlockFlow.GroupingsAgreeIff`, `BlockFlow.FiveMinusThreeFour`); all lists of given margins, repetitions included, exactly when the margins have one sign (`BlockFlow.FoldingAgreesIffOneSigned`).
- `include/box_style.h:313-315` gives one rule for a background offset. The code follows it exactly when the image is no larger than the area or there is no percentage (`BackgroundLayer.LayerFollowsRuleIff`, `BackgroundLayer.OversizedCentring`).
- `src/cached_fetch.c:103-104` and `spec/http_cache.md:28-29` say that a validator must not travel to another origin. It does in two ways. A conditional request that is redirected takes its validators along (`src/secure_fetch.c:1050-1059`, 1255-1309; `CacheExamples.RedirectedRequestCarriesEtag`); and after a redirected 304 the entry keeps its final URL but has the other site's etag (`CacheExamples.RedirectedEtagTravels`). In any run, a validator reaches the URL that gave it and no other if and only if the answer that last set it came from the URL the cache takes it to be from and the request is not redirected (`CacheValidators.EtagStaysHomeIff`, `CacheValidators.DateStaysHomeIff`).
- `include/http_cache.h:58-60` and `spec/http_cache.md:18-19` keep responses with no-store out of the store. A renewal by a 304 is not asked, so an entry can come to say no-store and be served fresh (`CacheExamples.RenewalStoresNoStore`). In any run, a stored entry says no-store if and only if its Cache-Control is from a 304 that does (`CacheProvenance.StoredNoStoreIff`).
- `include/secure_fetch.h:138-141` promises the final URL in every response, but nothing in `src/secure_fetch.c` sets it. With a fetcher that never reports it, every entry records the URL asked for (`CacheValidators.SilentFetcherRecordsAsked`), and the etag of a redirected 200 is sent to the site that redirected (`CacheExamples.UnreportedHopEtagTravels`). Which answers stray in this way is `CacheValidators.StraysIff`.
- `src/box_style.c:193-196` keeps one definition of the sheet behind the compact codes. They lose no vertical margin (`TagSheet.CodeLosesNoVerticalMargin`); the whole margin survives exactly when the tag is not `dd` (`TagSheet.CodeKeepsMarginIff`, `TagSheet.CodeLosesLeftMarginOfDd`).

## Model

| member | source | states |
|---|---|---|
| `BoxSizes.FloorSqrt` | src/box_blur.c:12-13 | the integer square root: its square is at most x and its successor's is above |
| `BoxSizes.LowerOddBounds` | src/box_blur.c:12-15 | the lower width is odd and at least 1 (its clamp is never reached), and the squares of wl and wl + 2 straddle 4 sigma^2 + 1 |
| `BoxSizes.IdealCountBounds` | src/box_blur.c:17-21 | the ideal number of narrow boxes lies in (0, 3], so both clamps of m are unreachable |
| `BoxSizes.WidthsAreOdd` | src/box_blur.c:16-22 | all three widths are odd, positive, ascending and within 2 of each other |
| `BoxSizes.WidthsApproximateSigma` | src/box_blur.c:9-22 | the variances of the three boxes add up to sigma^2 within (wl + 1) / 6, strictly from above because halves round away from zero, for every sigma > 0 |
| `BoxSizes.BoxWidths` | src/box_blur.c:7-24 | the procedure with its clamps writes exactly those widths, and writes nothing for a sigma that is not finite or not positive |
| `Windows.SumSlides` | src/box_blur.c:35-37 | moving the window by one adds the entering and removes the leaving sample |
| `Windows.WindowsCountEachSample` | src/box_blur.c:31-38 | exchanging the double sum: the window sums of a line that is empty near both ends count every sample once for each box cell |
| `Windows.MeanRounding` | src/box_blur.c:34 | the rounded mean is within half a width of the window sum |
| `BoxLines.MeanIsByte` | src/box_blur.c:34 | the mean of bytes fits a byte, so the cast loses nothing |
| `BoxLines.MassConserved` | src/box_blur.c:28-39 | a pass over a line whose first and last r samples are zero keeps bw * mass within n * (bw - 1) / 2 |
| `BoxLines.FirstWindow` | src/box_blur.c:32 | the initial sum is that of the window around 0, the samples outside the line being 0 |
| `BoxLines.SlideWindow` | src/box_blur.c:35-37 | the running sum goes from the window around i to the one around i + 1, at the ends of the line too |
| `BoxLines.GatherOfScatter` | src/box_blur.c:31-34 | a strided line that was written reads back as written |
| `BoxLines.BoxLine` | src/box_blur.c:28-39 | the in-place running-sum loop replaces the strided line by the rounded means of its windows and changes no other byte |
| `Planes.HPassSupport` | src/box_blur.c:50 | a horizontal pass spreads ink by the box radius, along rows only |
| `Planes.HPassCrop` | src/box_blur.c:50 | a horizontal pass of a sub-image that holds all ink is the sub-image of the pass |
| `Planes.VPassSupport` | src/box_blur.c:51 | a vertical pass spreads ink by the box radius, along columns only |
| `Planes.VPassCrop` | src/box_blur.c:51 | the same as for rows: pass and crop commute |
| `Planes.RoundCrop` | src/box_blur.c:49-52 | a round of both passes commutes with cropping to a rectangle that covers the ink and the round's reach, clamped at the surface |
| `Planes.BlurIsLocal` | include/box_blur.h:26-27 | after all rounds everything outside the rectangle is 0, and inside it the blur is, byte for byte, that of the rectangle alone |
| `BoxBlur.ScatterRow` | src/box_blur.c:50 | writing a row changes that row of the plane and no other byte, the stride's padding included |
| `BoxBlur.ScatterColumn` | src/box_blur.c:51 | the same for a column |
| `BoxBlur.PlaneFitsIff` | include/box_blur.h:18 | the buffer is required to hold exactly the cells y * stride + x of the plane |
| `BoxBlur.PaddingIsKept` | src/box_blur.c:49-52 | every byte that is none of these cells is kept |
| `BoxBlur.PassRows` | src/box_blur.c:50 | one call per row is the functional horizontal pass of the plane |
| `BoxBlur.PassColumns` | src/box_blur.c:51 | one call per column is the functional vertical pass: columns do not interfere |
| `BoxBlur.BlurA8` | src/box_blur.c:41-55 | the six in-place passes are the functional blur, padding is never changed, and every other return leaves the buffer alone, with the exact condition of each return code |
| `InkRect.InkBoxSmallest` | src/box_blur.c:61-74 | the ink's bounding box lies inside every rectangle that holds all ink |
| `InkRect.SurfaceFitsIff` | src/box_blur.c:63-66 | the surface is required to hold exactly the bytes y * stride + 4 x + ch of its pixels |
| `InkRect.ClampedCovers` | src/box_blur.c:76-80 | the box grown by the reach and clamped lies on the surface and covers all of the grown box that does |
| `InkRect.InkRectIsEnough` | include/box_blur.h:23-27 | on a premultiplied surface, in every channel: outside the rectangle the blur is 0, inside it is the blur of the rectangle alone |
| `InkRect.RowInk` | src/box_blur.c:64-69 | the first and the last column with ink in a row, or none |
| `InkRect.FindInkRect` | src/box_blur.c:57-82 | succeeds exactly for valid arguments and a surface with alpha, and writes the alpha's bounding box, grown and clamped; otherwise writes nothing |
| `InkEdges.HPassEdge` | src/box_blur.c:50 | a horizontal pass moves the outermost column of ink outward by the box radius, each of its samples alone in its window |
| `InkEdges.SideColumn` | src/box_blur.c:49-52 | after all rounds the column at an unclamped side is the outermost column of ink, folded through thinning and vertical passes; on either side |
| `InkEdges.SideRow` | src/box_blur.c:49-52 | the row at the top or the bottom is the outermost row of ink, folded through horizontal passes and thinning |
| `InkEdges.LeftSideIff` | include/box_blur.h:23-25 | the blur touches the left side if and only if that folded column is not all 0 |
| `InkEdges.RightSideIff` | include/box_blur.h:23-25 | the same for the right side |
| `InkEdges.TopSideIff` | include/box_blur.h:23-25 | the same for the top, with the folded row |
| `InkEdges.BottomSideIff` | include/box_blur.h:23-25 | the same for the bottom |
| `InkEdges.RectIsSmallestIff` | include/box_blur.h:23-25 | an unclamped rectangle is the smallest the blur changes if and only if ink arrives at all four sides |
| `InkEdges.ReachesColumn` | src/box_blur.c:49-52 | every column within reach of another gets, sample by sample, at least what arrives of that one, whatever else is on the plane |
| `InkEdges.ReachesRow` | src/box_blur.c:49-52 | the same for rows |
| `InkEdges.RectIsSmallestIfAllArrive` | include/box_blur.h:23-25 | any rectangle, clamped or not, is the smallest if all four outermost lines of ink arrive |
| `InkEdges.FaintLineIsLost` | src/box_blur.c:34 | a line with nothing above half the first box width never arrives |
| `InkEdges.RectIsNotSmallest` | include/box_blur.h:23 | for sigma 1.4, a faint pixel in the middle of a 7 x 7 surface: its rectangle is the whole surface, and not the smallest |
| `Freshness.CcFind` | src/http_cache.c:74-89 | the scan finds the first directive of that name, and its value |
| `Freshness.DirectiveIff` | src/http_cache.c:73-89 | a directive is found if and only if some element of the comma-separated list has its name, in whatever case |
| `Freshness.ElementsOfList` | src/http_cache.c:77-86 | commas separate the elements |
| `Freshness.NameOfElement` | src/http_cache.c:78-81 | an element's name goes from its first character that is no blank to the next blank or "=" |
| `Freshness.DirectiveRest` | src/http_cache.c:73-89 | what a directive is found with is the rest of the first element of that name, up to its comma |
| `Freshness.SameTokenIff` | src/http_cache.c:81 | names are the same exactly when they differ in the case of letters at most |
| `Freshness.SaidMaxAgeIsRead` | src/http_cache.c:91-105 | a max-age that says a decimal number, quoted or not, is read as that number, clamped to a year |
| `Freshness.ReadMaxAgeIsSaid` | src/http_cache.c:91-105 | nothing else is read as a max-age |
| `Freshness.DigitsAreTen` | src/http_cache.c:96-99 | the digits and their values |
| `Freshness.StorableIff` | src/http_cache.c:107-113 | storable exactly: a 200 of 8 MiB at most, without no-store, with a validator, an Expires or a max-age other than 0 |
| `Freshness.StorableMeans` | src/http_cache.c:107-113 | hc_storable lets through a 200 without no-store, of 8 MiB at most; it is asked about fetched responses, not about renewed entries |
| `Freshness.NoCacheIsNeverFresh` | src/http_cache.c:115-117 | no-cache outranks every other sign of freshness |
| `Freshness.MaxAgeDecides` | src/http_cache.c:115-119 | without no-cache, max-age=N alone decides: fresh if and only if younger than N seconds and than a year, whatever Expires and Last-Modified say |
| `Freshness.ExpiresDecides` | src/http_cache.c:120-127 | without max-age, Expires decides: fresh if and only if it can be read and the age is below Expires minus Date, and below a year |
| `Freshness.LastModifiedDecides` | src/http_cache.c:128-133 | with neither, fresh if and only if the age is below a tenth of Date minus Last-Modified, and below a day |
| `Freshness.StaleClass` | src/http_cache.c:141 | what is not fresh is revalidated if and only if it has a validator |
| `Freshness.FreshnessExpires` | src/http_cache.c:115-142 | freshness is never regained by waiting, and ends within a year, within a day if it rests on Last-Modified alone |
| `Freshness.StoredIsOfUse` | include/http_cache.h:58-60 | what is stored can be served or revalidated at once, unless Expires or no-cache overrules all it could be reused by |
| `Eviction.Evict` | src/http_cache.c:395-432 | the in-place loop drops the oldest files until the target is met; every file stays, is gone, or is one that unlinking failed for |
| `Eviction.EvictedBounds` | src/http_cache.c:395-432 | a file goes only if the directory exceeds its limit and dropping everything older would not meet the target, and for certain if dropping all others of its own second too would not, whatever partition it belongs to |
| `Eviction.EvictedIff` | src/http_cache.c:395-432 | for a file that is alone in its second the two bounds are one condition |
| `Eviction.KeptFits` | include/http_cache.h:24 | what is left in the directory fits the limit, but for files that could not be removed |
| `CachedFetch.Fetcher.Fetch` | src/cached_fetch.c:90 | one exchange, logged, with a body in a new buffer |
| `CachedFetch.Fetcher.ResponseFromCache` | src/cached_fetch.c:53-75 | a rebuilt 200 that owns the stored body, or a failure that has freed it |
| `CachedFetch.Fetcher.Remember` | src/cached_fetch.c:77-83 | stores exactly what is storable and what the store takes (src/http_cache.c:295-299, 434-444), under the call's own key |
| `CachedFetch.Fetcher.RevalidateWith` | src/cached_fetch.c:102-124 | the conditional exchange refines its specification and disposes of the stored body, on each of its four ways out |
| `CachedFetch.Fetcher.MissWith` | src/cached_fetch.c:127-130 | a miss refines its specification |
| `CachedFetch.Fetcher.CfGetWith` | src/cached_fetch.c:85-131 | status, response, store and network log are those of the specification, and of all buffers only the response's own body is left: nothing leaks, nothing is freed twice |
| `CacheCalls.NotSharedIsDirect` | src/cached_fetch.c:26-31 | a request with a user name, a byte range, the overlay flag, or not for an https URL of less than 2048 characters, or a call without store or site, is exactly the direct fetch, and leaves the store as it is |
| `CacheCalls.FreshEntryIsHit` | src/cached_fetch.c:95-100 | any other call that finds a fresh entry is a hit: the entry is served field by field, and nothing is asked or written |
| `CacheCalls.UnrebuiltHitIsDirect` | src/cached_fetch.c:99-100 | if the response cannot be rebuilt the call is the direct fetch |
| `CacheCalls.WritableIff` | src/http_cache.c:295-299 | the store takes exactly what has a final URL, no line break in any field, and fits |
| `CacheCalls.UnusableIsFetched` | src/cached_fetch.c:125-130 | with nothing usable stored, the call's own request is all that is asked, and its reply is stored exactly if it may be reused and written |
| `CacheCalls.NotModifiedIsServed` | src/cached_fetch.c:105-119 | the conditional request carries exactly the validators there are; a 304 renews the entry field by field and serves the stored body |
| `CacheCalls.ChangedIsStored` | src/cached_fetch.c:121-123 | any other answer to it is the call's answer, and is stored exactly if it may be |
| `CacheRuns.StepWellSourced` | src/cached_fetch.c:85-131 | one call keeps every entry traceable: body and whole final URL to one 200 fetched for that very entry, the time of storage to a 200 or 304 for it |
| `CacheRuns.RunWellSourced` | src/cached_fetch.c:85-131 | so does any run from an empty store; in particular every stored final URL is non-empty and that of the 200 behind the entry |
| `CacheRuns.ServedBodiesWereFetched` | include/cached_fetch.h:22-24 | in any run, a body served from the store is that of an earlier 200 without no-store for the same partition, fetched from the URL asked for or from a final URL recorded for that entry |
| `CacheRuns.HitsAreFresh` | src/http_cache.c:115-142 | in any run, a hit serves an entry that was fetched or revalidated less than its lifetime ago, and never one that says no-cache |
| `CacheRuns.RevalidationAsksFinalUrl` | src/cached_fetch.c:103-108 | in any run, a conditional request goes to the whole final URL of the 200 behind the entry |
| `CacheRuns.LongFinalUrlIsNotStored` | src/cached_fetch.c:33-42 | a final URL that does not fit its field is dropped, and the store then refuses the entry (src/http_cache.c:295-299) |
| `CacheRuns.RejectedIsDirect` | src/cached_fetch.c:88-90 | a call that does not use the store neither reads nor writes it and is the direct fetch; which calls these are is CacheCalls.NotSharedIsDirect |
| `CacheRuns.TrafficIsNecessary` | include/cached_fetch.h:13-17 | a hit costs no exchange; any other call makes one or two: the caller's own request or the entry's conditional one, and both only, in that order, when rebuilding after a 304 failed |
| `CacheRuns.FreshenedKeepsFinalUrl` | src/cached_fetch.c:111-115 | a 304 renews the time and never the final URL |
| `CacheProvenance.StepTagsTrue` | src/cached_fetch.c:85-131 | one call keeps track of the answers that last set each entry's etag, date and Cache-Control, and of the URL the cache takes them to be from |
| `CacheProvenance.RunTagsTrue` | src/cached_fetch.c:85-131 | so does any run from an empty store |
| `CacheProvenance.StoredNoStoreIff` | src/cached_fetch.c:111-116 | in any run, a stored entry says no-store if and only if its Cache-Control is from a 304 that says so |
| `CacheValidators.EtagStaysHomeIff` | src/cached_fetch.c:103-108 | in any run, an etag the cache sends was last set by some answer of the history, and reaches the URL that gave it and no other if and only if that answer did not stray and the request is not redirected |
| `CacheValidators.DateStaysHomeIff` | src/cached_fetch.c:103-108 | the same for dates of modification |
| `CacheValidators.StraysIff` | src/cached_fetch.c:40-42 | a 200 strays exactly when it does not report its last hop, a 304 exactly when it comes from another URL than it was asked of |
| `CacheValidators.ValidatorsStayHome` | src/cached_fetch.c:103-108 | with no straying answer so far, every conditional request that is not redirected keeps etag and date at the URL that gave them |
| `CacheExamples.RedirectedEtagTravels` | src/cached_fetch.c:103-116 | a run in which the etag of site B's 304 is sent to site A |
| `CacheExamples.RedirectedRequestCarriesEtag` | src/secure_fetch.c:1255-1309 | a run with no straying answer in which a redirected conditional request takes site A's etag to site B |
| `CacheExamples.UnreportedHopEtagTravels` | src/cached_fetch.c:40-42 | a run in which the etag of a redirected 200 without a final URL is sent to the site that redirected |
| `CacheExamples.RenewalStoresNoStore` | src/cached_fetch.c:110-116 | a run in which a 304 leaves a stored entry that says no-store, and the next call is a hit on it |
| `CacheValidators.SilentFetcherRecordsAsked` | src/cached_fetch.c:40-42 | with a fetcher that reports no final URL, every entry of any run records its own URL |
| `CacheTransparency.ValidatedBodyIsCurrent` | src/cached_fetch.c:110-116 | a truthful 304 for the stored validators means that the final URL still has the stored body, and with a new etag that body and etag belong together |
| `CacheTransparency.RevalidateTransparent` | src/cached_fetch.c:102-124 | on pages that change, a revalidation answers what its URL has now, and every entry stays a pair of body and validators its final URL once gave |
| `CacheTransparency.CallTransparent` | src/cached_fetch.c:85-131 | the same for any call |
| `CacheTransparency.CacheIsTransparent` | include/cached_fetch.h:13-17 | in any run, on pages that change between calls, under any evictions, store failures and network failures: a fetched or revalidated answer is what its URL has now, a hit what its URL had when the entry was last fetched or revalidated, and a failure is the network's own |
| `CacheTransparency.RevalidatedIsFullGet` | src/cached_fetch.c:109-119 | in any such run, a revalidated answer is the page a full GET of its URL would have returned instead of the 304 |
| `CacheTransparency.UnchangingPagesAreDirect` | include/cached_fetch.h:13-17 | if pages do not change, every answer that is no failure is that of a direct fetch of the call's own URL |
| `CacheTransparency.HitRepeatsResponse` | src/cached_fetch.c:40-75 | a stored response comes back field by field, with no exchange, its final URL filled in and "cache" as its TLS version |
| `CachePartitions.CallIsLocal` | src/cached_fetch.c:95-130 | a call reads and writes its own entry only |
| `CachePartitions.OtherPartitionLoses` | include/cached_fetch.h:22 | a call under one partition takes from another exactly the entries that are lost of it |
| `CachePartitions.OtherPartitionUntouchedIff` | include/cached_fetch.h:22 | it leaves the other as it was if and only if nothing stored under it is lost |
| `CachePartitions.OwnPartitionDecides` | include/cached_fetch.h:22 | two stores that agree on a partition, after its losses, give its calls the same answers and go on agreeing |
| `CachePartitions.PartitionsDoNotInterfere` | include/cached_fetch.h:22 | in any run, answers and network traffic of a partition depend on its own calls and on which of its entries were lost between them, and on nothing else |
| `Words.XorShiftInverts` | src/anti_fp.c:123-125 | a right xor-shift by 22 bits or more is undone by three shifted terms |
| `AntiFp.SplitMix64.Next` | src/anti_fp.c:121-126 | the state advances by the increment, and the output is the mix of the new state |
| `AntiFp.MixIsBijective` | src/anti_fp.c:123-125 | the finaliser has a two-sided inverse on 64-bit words |
| `AntiFp.StateAtClosedForm` | src/anti_fp.c:122 | after n draws the state is seed + n * increment mod 2^64 |
| `AntiFp.OutputsCoincideIff` | src/anti_fp.c:121-126 | two outputs of one key are equal if and only if 2^64 divides the distance of their indices |
| `AntiFp.OutputInjectiveInSeed` | src/anti_fp.c:121-126 | at any one index distinct keys give distinct outputs |
| `AntiFpVectors.FirstOfSeedZero` | src/anti_fp.c:121-126 | the first value of splitmix64 from the seed 0 is the published one |
| `AntiFp.Perturb` | src/anti_fp.c:128-137 | the loop leaves the perturbed prefix and changes nothing after it; NULL and empty are no-ops |
| `AntiFp.PerturbedOnlyLowBits` | include/anti_fp.h:85-86 | noise changes least-significant bits only, exactly at the selected positions |
| `AntiFpVectors.FlipsIffMultiple` | src/anti_fp.c:133 | a byte of the buffer changes if and only if the low four bits of its draw are 0 |
| `AntiFpVectors.OneInSixteenFlips` | src/anti_fp.c:132-133 | at every index exactly 2^60 of the 2^64 keys flip |
| `AntiFp.PerturbedInvolution` | include/anti_fp.h:85-88 | the noise of one key is its own inverse |
| `AntiFp.PerturbedStreams` | src/anti_fp.c:130-136 | perturbing A + B is perturbing A, and B under the key advanced by the length of A |
| `AntiFp.PerturbedPrefixStable` | src/anti_fp.c:130-136 | what follows a byte never changes its noise |
| `AntiFp.FirstOutputIsAnything` | src/anti_fp.c:121-126 | every word is the first output of some key |
| `AntiFp.DifferentKeysMayAgree` | include/anti_fp.h:86-87 | two different keys that leave every one-byte buffer alone |
| `AntiFp.SomeKeysShareNoise` | include/anti_fp.h:86-87 | for every length below 64, some two different keys make the same noise on all buffers of that length |
| `AntiFp.SameNoiseIff` | include/anti_fp.h:86-87 | two keys give the same buffer if and only if they select the same positions |
| `AntiFp.OriginKey` | src/anti_fp.c:139-156 | the loop computes the key specified by the domain's hash, which the next four rows pin; NULL and "" are one namespace |
| `AntiFpVectors.HashOfNothing` | src/anti_fp.c:142 | NULL and "" stay at the FNV-1a offset basis |
| `AntiFpVectors.HashAppends` | src/anti_fp.c:146-147 | a further character goes in by exclusive or first, then multiplication by the FNV prime mod 2^64 |
| `AntiFpVectors.HashOfA` | src/anti_fp.c:139-149 | the published FNV-1a value of "a" |
| `AntiFpVectors.KeyOfA` | src/anti_fp.c:139-156 | the key of "a" under the session key 0 |
| `AntiFp.OriginKeysCoincideIff` | src/anti_fp.c:150-155 | keys are equal if and only if the exclusive ors of session key and domain hash are |
| `AntiFp.OriginKeyInjectiveInSession` | include/anti_fp.h:90-94 | for one domain, distinct sessions never share a key |
| `AntiFp.FnvStepInjective` | src/anti_fp.c:146-147 | a hash step is injective in the state and in the byte |
| `AntiFp.FnvInjectiveInState` | src/anti_fp.c:144-148 | so is the fold over any common suffix |
| `AntiFp.OneByteApartNeverShare` | include/anti_fp.h:92-94 | two domains of one length that differ in exactly one byte never share a key |
| `AntiFp.NullNamespaceIff` | include/anti_fp.h:94-96 | the key of NULL is distinct from a domain's if and only if the domain does not hash to the offset basis |
| `AntiFp.SomeDomainsShareKey` | include/anti_fp.h:92-94 | some two domains of nine characters share their key under every session |
| `Kernel.Os.WriteFull` | include/util.h:15-24 | under any short writes and interrupts: appends exactly the buffer, or reports the one write that failed; no other file changes on the way |
| `Kernel.Os.ReadFull` | include/util.h:26-36 | under any short reads and interrupts: fills the buffer with the file's first n bytes, unless a read fails or the file is shorter |
| `Kernel.Os.FsyncDir` | src/disk_store.c:32-48 | best effort: settles the entries of the directory that holds the path, or changes nothing |
| `FileSystem.LastSlash` | src/disk_store.c:35 | the last slash of a path, or -1 if there is none |
| `FileSystem.RenamedOver` | src/disk_store.c:93 | a rename shows the new file at once, and a crash may leave either |
| `FileSystem.DirOfMeans` | src/disk_store.c:35-44 | the directory of d/f is d, of /f the root, and of f the current one |
| `FileSystem.UnsyncedMayTear` | src/disk_store.c:90 | before an fsync a crash can leave anything in a file just created or written |
| `FileSystem.UnsyncedEntryMayReturn` | src/disk_store.c:93-96 | before the directory is synced a crash can bring back what a name referred to |
| `DiskStore.FillTemp` | src/disk_store.c:88-91 | only the temporary file changes, and after success it holds the blob and is synced |
| `DiskStore.RenameIsAtomic` | src/disk_store.c:89-93 | renaming a synced file leaves, crash or not, the old content or the complete new one |
| `DiskStore.RenameWithoutFsyncTears` | src/disk_store.c:90-93 | without the fsync a crash could leave any bytes at all under the path |
| `DiskStore.WritingIsAtomic` | src/disk_store.c:84-91 | work on the temporary file never touches the target |
| `DiskStore.SettledIsAtomic` | src/disk_store.c:96 | after the directory's fsync the new content is all a crash can leave |
| `DiskStore.Install` | src/disk_store.c:93-96 | rename or clean up: atomic throughout, and a temporary file stays only if removing it fails |
| `DiskStore.DsWrite` | src/disk_store.c:66-101 | in every state on the way, a crash leaves a complete old container or the complete new one, sealed under the key, and processes see one of the two; any other return than success leaves the target untouched; no other file is affected; argument errors exactly when stated; success and durability if nothing fails |
| `DiskStore.DsRead` | src/disk_store.c:103-134 | answers exactly what the file opens to, too-large exactly above the bound, and an error without plaintext if anything fails |
| `DiskStore.ReadErrorsIff` | src/disk_store.c:50-62 | of a file within the bound that does not open, a faultless read reports the cause: authentication, format, memory, size, arguments or cipher, each exactly when it is that |
| `DiskStore.OversizedIsRefusedIff` | src/disk_store.c:115-119 | a file over 64 MiB + 52 is too large, unopened |
| `DiskStore.WrittenIsReadBack` | src/disk_store.c:103-134 | what was sealed and written reads back as the same plaintext, and is never refused for its size, format or authenticity |
| `DiskStore.CrashedWriteReadsOldOrNew` | src/disk_store.c:66-134 | a crash anywhere in a write over a settled file: reading without a failure gives exactly what the old file opened to, or the new plaintext |
| `Utf8Sanitizer.AcceptedIsEncoding` | gui/ui_render.c:44-55 | an accepted sequence is the shortest-form encoding of a Unicode scalar value |
| `Utf8Sanitizer.EncodingIsAccepted` | gui/ui_render.c:44-55 | every scalar value's encoding is accepted, whatever follows |
| `Utf8Sanitizer.SanitizedEncodes` | gui/ui_render.c:34-38 | the output encodes the decoded characters, with "?" for each byte that belongs to none |
| `Utf8Sanitizer.SanitizedIsWellFormed` | gui/ui_render.c:34-35 | the output is well-formed for every input |
| `Utf8Sanitizer.UnchangedIffWellFormed` | gui/ui_render.c:34-35 | the output equals the input if and only if the input was well-formed |
| `Utf8Sanitizer.SanitizedIdempotent` | gui/ui_render.c:39-65 | sanitising twice is sanitising once |
| `Utf8Sanitizer.BytesKeptInPlace` | gui/ui_render.c:56-62 | every byte stays where it is or becomes "?" |
| `Utf8Sanitizer.SanitizedSplits` | gui/ui_render.c:42-63 | before a byte that is no continuation the string can be cut and the parts sanitised apart |
| `Utf8Sanitizer.CharacterSurvives` | gui/ui_render.c:34-35 | a valid character amid any bytes survives, and its surroundings are sanitised as if it were not there |
| `Utf8Sanitizer.StrLen` | gui/ui_render.c:40 | the position of the first zero byte |
| `Utf8Sanitizer.SequenceOk` | gui/ui_render.c:43-55 | the branches accept exactly the sequences of the specification, with their length |
| `Utf8Sanitizer.CopySequence` | gui/ui_render.c:57 | write and read index being equal, copying changes nothing |
| `Utf8Sanitizer.SanitizeInPlace` | gui/ui_render.c:39-65 | the in-place loop leaves the sanitised string, of the same length, and nothing behind its terminator changes |
| `Compositor.ZIndexNeedsContext` | src/compositor.c:16-47 | a z-index moves a box to another layer only by making it, or finding it, a stacking context, and makes one only of a relative or absolute box |
| `Compositor.InFlowIff` | src/compositor.c:16-47 | an unpositioned box stays in the flow if and only if it has no partial opacity, blend, isolation or transform; then floats, inline content and blocks have their layers, and otherwise the z-index decides |
| `Compositor.PositionedIff` | src/compositor.c:16-43 | a positioned box paints by its z-index; a relative or absolute one forms a context exactly for such an effect or a z-index of its own, a fixed or sticky one always |
| `Compositor.LayersFromBackToFront` | include/compositor.h:27-35 | the seven layers from back to front, and what a box without style gets |
| `Compositor.InFlowLayers` | src/compositor.c:41-47 | in-flow boxes paint between the negative and the zero layer |
| `Compositor.LayerIsSignOfZ` | src/compositor.c:34-43 | on positioned boxes and contexts the layer is the sign of the effective z |
| `Compositor.OutOfFlowIff` | src/compositor.c:9-32 | these boxes are the positioned ones and those with a group effect |
| `Compositor.CompareIsTotalPreorder` | src/compositor.c:54-64 | reflexive, antisymmetric in sign, transitive and total, NULL included |
| `Compositor.NullSortsFirst` | src/compositor.c:55-58 | a NULL operand sorts before every item |
| `Compositor.LayersAgreeWithPainter` | src/compositor.c:34-64 | on those boxes the three-key order is the order by effective z and document position |
| `Compositor.InsertionSortCorrect` | src/compositor.c:66-69 | the result is sorted and stable: for every key, the equal items in their original order |
| `Compositor.StableSortUnique` | src/compositor.c:66-69 | there is only one sorted stable rearrangement |
| `Compositor.StableIsPermutation` | src/compositor.c:70-83 | a stable rearrangement is a permutation |
| `Compositor.OrderIndependent` | include/compositor.h:77-79 | when equal keys mean equal items, the result does not depend on the order of the input |
| `Compositor.InsertOne` | src/compositor.c:72-82 | shifting greater items up is inserting behind the last item that is not greater |
| `Compositor.Sort` | src/compositor.c:70-83 | the in-place loops compute the stable sort of the first n items and change nothing after them |
| `Pacer.PaceDueMs` | include/media_decoder.h:79-94 | due time and new state of one call; NULL answers now |
| `Pacer.NominalIsExact` | include/media_decoder.h:77-85 | the unsigned difference is exact, and the wrap-around check passes exactly when the sum is |
| `Pacer.DueIsNearNow` | include/media_decoder.h:73-78 | every due time lies in [now - 500, now + 5000], for every state, clock and timestamp, wrap-around included |
| `Pacer.KeepsIff` | include/media_decoder.h:82-88 | short of the clock's end the schedule is kept exactly when it puts the frame into that interval and the stream does not go back |
| `Pacer.AnchorHolds` | include/media_decoder.h:82-93 | between re-anchors the state stays the anchor's |
| `Pacer.NoDrift` | include/media_decoder.h:73-76 | between re-anchors every due time is exactly the anchor's instant plus the whole milliseconds since |
| `Pacer.NextDueNotEarlier` | include/media_decoder.h:79-94 | a frame no older, asked for no earlier than the last due time, is due no earlier |
| `Pacer.DueTimesNeverDecrease` | include/media_decoder.h:79-94 | over such a run due times never decrease |
| `ShmSlots.PickFindsFree` | include/shm_slots.h:29-38 | a picked slot is free, the current one is preferred, and picking fails if and only if every slot is busy |
| `ShmSlots.State.constructor` | include/shm_slots.h:24-27 | every slot starts free |
| `ShmSlots.State.SsPick` | include/shm_slots.h:32-38 | the loop finds the first free slot from the current one on, and makes it the current one |
| `ShmSlots.State.SsCommitted` | include/shm_slots.h:41-46 | the slot becomes busy and the next one current; a bad index changes nothing |
| `ShmSlots.State.SsReleased` | include/shm_slots.h:49-53 | frees a busy slot and says so; anything else changes nothing |
| `ShmSlots.StepKeepsInvariant` | include/shm_slots.h:11-14 | every step keeps each busy slot in exactly one place: on its way, with the compositor, or on its way back |
| `ShmSlots.NeverPaintsWhatIsRead` | include/shm_slots.h:11-14 | in every reachable state busy means outstanding, the slot being painted is not outstanding, and picking fails if and only if all are |
| `ShmSlots.ReleaseReenablesPainting` | include/shm_slots.h:29-31 | any release that arrives frees a busy slot, and a slot can be picked again |
| `ShmSlots.PaintsWhenItCan` | include/shm_slots.h:29-38 | in every reachable state with a slot that is not outstanding, painting starts, on such a slot, which becomes the current one |
| `ShmSlots.DeferredPaintHasCause` | include/shm_slots.h:29-31 | when nothing can be picked, a message is in flight or the compositor holds a buffer |
| `ShmSlots.TwoSlotsAlternate` | include/shm_slots.h:41-46 | with two slots painting goes to the other one after a commit, or waits for it |
| `BlockFlow.ExtremesAreExtreme` | src/block_flow.c:17-26 | the two extremes bound every margin, and each is 0 or one of them |
| `BlockFlow.CollapseN` | src/block_flow.c:15-28 | the loop computes the sum of the extremes, non-finite margins counting as 0 |
| `BlockFlow.Collapse` | src/block_flow.c:30-33 | two margins collapse as the list of the two |
| `BlockFlow.NonFiniteIsNothing` | src/block_flow.c:7-13 | NaN and infinities contribute nothing to any list, and a single margin is its own result |
| `BlockFlow.CollapsedOfSet` | src/block_flow.c:17-20 | order and repetition of margins do not matter |
| `BlockFlow.ExtremesOfConcat` | src/block_flow.c:18-20 | the pair of extremes is a fold of (max, min): grouping does not matter |
| `BlockFlow.FoldingAgreesIffOneSigned` | src/block_flow.c:18-20 | folding two at a time agrees with the n-ary form on all lists of given margins if and only if these have one sign |
| `BlockFlow.OrdersAgreeIff` | src/block_flow.c:18-20 | all orders of one list fold to the n-ary value if and only if its margins have one sign or there is exactly one of either sign |
| `BlockFlow.GroupingsAgreeIff` | src/block_flow.c:18-20 | the same for every order and every grouping into binary calls |
| `BlockFlow.MixedSignsDisagree` | src/block_flow.c:18-20 | a positive and a negative margin, one of them repeated, always tell the two forms apart |
| `BlockFlow.FiveMinusThreeFour` | src/block_flow.c:18-20 | 5, -3, 4 collapse to 2, two at a time to 4 or to 5 |
| `BackgroundLayer.PlaceLayer` | src/box_style.c:415-452 | writes the specified geometry when every size is usable, and nothing otherwise |
| `BackgroundLayer.SkippedIff` | include/box_style.h:317-320 | a layer is skipped if and only if image or area is empty or an explicit component is 0; never for cover and contain |
| `BackgroundLayer.KeywordFits` | src/box_style.c:423-428 | cover and contain scale uniformly, leave no gap or no overflow, and touch the area on one axis |
| `BackgroundLayer.CoverAndContain` | src/box_style.c:423-428 | the same in the terms of the declaration: such a layer is always placed, scaled uniformly, without gap or overflow |
| `BackgroundLayer.ExplicitSizeFollowsRatio` | src/box_style.c:429-438 | stated dimensions are used, an auto one keeps the image's ratio, two are its own size |
| `BackgroundLayer.DeclaredSizeIsUsed` | src/box_style.c:405-438 | the same in the terms of the declaration: px, percentages of the area, their sum, and auto |
| `BackgroundLayer.OffsetFollowsRuleIff` | src/box_style.c:367-376 | the resolver follows the documented offset rule if and only if the image is no larger than the area or there is no percentage |
| `BackgroundLayer.LayerFollowsRuleIff` | include/box_style.h:313-315 | the same for a placed layer, axis by axis |
| `BackgroundLayer.OversizedCentring` | include/box_style.h:313-315 | a 200px image centred in 100px starts at 0 and not at -50 |
| `BackgroundLayer.PercentageAligns` | src/box_style.c:441-446 | for an image that fits, a percentage aligns that fraction of the image with that fraction of the area |
| `TagSheet.CopyLowerTrim` | src/box_style.c:37-46 | succeeds exactly when the trimmed name is non-empty and fits, and writes it in lower case |
| `TagSheet.NormalizedIff` | src/box_style.c:35-46 | a name between white space is normalised to its small letters exactly if it is not empty and has fewer characters than the buffer |
| `TagSheet.LongestName` | src/box_style.c:163-169 | in the lookups, 31 characters at most |
| `TagSheet.StrCmpOrder` | src/box_style.c:50-52 | the comparison is 0 exactly on equal names and antisymmetric |
| `TagSheet.TableSorted` | src/box_style.c:92-160 | the table is strictly sorted |
| `TagSheet.OneRowPerName` | src/box_style.c:92-160 | no name has two rows |
| `TagSheet.BSearch` | src/box_style.c:167 | binary search finds exactly what linear lookup finds, for every string |
| `TagSheet.DefaultForTag` | src/box_style.c:163-169 | the box of the row that linear lookup of the normalised tag finds, or the neutral box |
| `TagSheet.HeadingMargins` | src/box_style.c:92-160 | the margins that looking up h1 to h6 gives |
| `TagSheet.TextMargins` | src/box_style.c:92-160 | those of paragraphs, preformatted text, definition lists and rules |
| `TagSheet.ListMargins` | src/box_style.c:92-160 | those of lists, with their padding |
| `TagSheet.IndentedMargins` | src/box_style.c:92-160 | those of quotations, figures and definitions |
| `TagSheet.OtherRowsHaveNone` | src/box_style.c:92-160 | no other row has a margin or padding |
| `TagSheet.UaOfTag` | src/box_style.c:210-217 | the code of the normalised tag, or none |
| `TagSheet.CodeKeepsBox` | src/box_style.c:193-223 | a code stands for the whole box of its tag, and a tag without one has no vertical margin |
| `TagSheet.CodeLosesNoVerticalMargin` | src/box_style.c:193-223 | for every string, the vertical margins behind the code are those of the tag |
| `TagSheet.CodeKeepsMarginIff` | src/box_style.c:193-223 | for every string, the whole margin behind the code is the tag's if and only if the normalised tag is not `dd` |
| `TagSheet.CodeLosesLeftMarginOfDd` | src/box_style.c:197-223 | `dd` has a left margin of 2.5em that its code does not have |

## Left out

- Floating point: doubles are reals, with infinities and NaN only where the code looks for them (`bb_box_sizes`, `finite_or_zero`); rounding, casts of huge sigmas to `int` and NaN in background layers are not modelled.
- `int` overflow of `w * 4` and of `x1 + reach + 1` in `bb_ink_rect`: pixel coordinates are unbounded integers.
- BoxLines.MassConserved: is about one line and one pass; the mass of the plane over all six is not stated, because the ends of a line need not stay empty between passes.
- BoxBlur.BlurA8: the scratch allocation is a parameter that says whether it succeeds.
- InkEdges.RectIsSmallestIff: is about rectangles no side of which is clamped. For others the condition is sufficient (RectIsSmallestIfAllArrive) but not claimed to be necessary: ink further in can reach a clamped side too.
- CacheTransparency.CacheIsTransparent: is about calls that are not conditional themselves, and takes 304s to be truthful and validators to be sound per URL asked for: the same etag twice means the same body, redirected or not. Final URLs are reported for every page or for none.
- CachePartitions.PartitionsDoNotInterfere: which entries are lost is an input of the run; which files the shared size limit takes is EvictedIff, and the two are not joined.
- CacheValidators.EtagStaysHomeIff: takes the redirects of an exchange from the model's environment, where the code keeps no record of them. A request that a remembered permanent redirect sends straight on counts as sent to the URL asked for as well.
- Eviction.EvictedIff: is about a file with a modification time of its own; among files of one second EvictedBounds leaves open which go first. Every sixteenth put calling `evict`, and a scan cut short by a failed allocation, are left out.
- The files of the cache: sealing, names by keyed hash (taken to be different for different keys), their line format, corrupt files and redirect entries. Losing and failing to read or write an entry are fields of `Env`.
- `hc_parse_http_date` is a parameter; the C library's part of it is not modelled.
- The fetcher behind `cached_fetch.c`: its answers, and the URLs they came from, are fields of `Env`.
- NULL `fetch`, `cfg` and `out` in `cf_get_with` (the NULL URL stands for all), changes a fetcher makes to `*cfg`, the `downgraded` and `allowlisted` arguments, tracing, the process-wide store and `cf_get`, and redirect memory.
- AntiFp.NullNamespaceIff: no domain that hashes to the offset basis is exhibited; that real domains hash apart from it and from each other is a matter of probability and not stated.
- `fp_bucket_screen`, `fp_coarsen_time_ms` and the constant getters of `anti_fp.c`: easy members.
- Kernel.Os.WriteFull: interrupts and writes that move nothing are finite in number (`patience`); the C loop would wait for ever.
- Kernel.Os.ReadFull: reads a file that nobody changes meanwhile, with finitely many interrupts.
- DiskStore.DsWrite: sealing is a function of a nonce that meets the contract of `local_store.h`; wiping and freeing buffers, `fchmod` and the values of `errno` are left out.
- DiskStore.DsRead: a failing `fstat` and a file that is not regular are one failure; NULL out-pointers are left out.
- `utf8_seq_len`, `mem_contains_ci` and `fnv1a` of `include/util.h`: not used by what is modelled.
- A string is sanitised as an array of bytes with its terminator; the text drawing that calls the sanitiser is not modelled.
- ShmSlots.State.constructor: takes the number of slots, which the C code fixes at 2.
- The Wayland side of the double buffer: only which buffer it may read, and when it lets go.
- `bf_margins_adjoin`, `bx_table_role_of`, `bx_place`, `bx_content_cap`, `bx_border_span`, `bx_block_ua_box` and the other one-branch clamps of `box_style.c`: easy members. Table roles are not part of the modelled rows, and the display values of the rows are data.
- Everything known only from headers (CSS, URL, layout and script modules), and the GUI apart from the sanitiser.
