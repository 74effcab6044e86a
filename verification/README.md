# Colour matcher: a Dafny model

This project models the colour-matching logic of `ColorMatcher.Logic`.

- **Catalogue.** The catalogue of named colours is deserialised into `ColorWrapper`s. Two indexes are built from it:
  - an exact index keyed by the packed ARGB value of each colour;
  - a bucket index keyed by the sum R+G+B.
- **Matcher.** The matcher takes a pixel colour and a fuzziness. It first looks the packed pixel up in the exact index. If that misses and the fuzziness is positive, it searches the buckets whose sum is within three times the fuzziness of the pixel's sum. There it keeps the entries whose R, G and B are each within the fuzziness, and it returns the first one whose truncated average deviation is least.

Everything is modelled with immutable datatypes and pure functions:

- `wrappers.dfy`: `Result`, for construction that can fail.
- `colors.dfy`:
  - `Color`, whose four channels are bytes;
  - the packed key `Pack` (`Color.ToArgb`) and its inverse `Unpack` (`Color.FromArgb(int)`);
  - the channel sum;
  - `ColorWrapper` with its getters and setters.
- `catalogue.dfy`:
  - `ToDictionary`, the exact index, which fails on a repeated key;
  - `ToLookup`, the bucket index, an ordered sequence of groups;
  - `Build`, the catalogue construction, and the well-formedness of its result.
- `matcher.dfy`:
  - `CandidateColor`, `FuzzySearch` and `MatchPixel`, with their properties: soundness, completeness, lossless pruning, optimality with its tie-break, and monotonicity;
  - the pruning bound as `FuzzySearch` computes it, in 32-bit arithmetic.
- `scenarios.dfy`: the repository's unit-test scenarios, stated about the model.

Each index is reference-checked:

- The exact index against `DistinctArgb`.
- The bucket index against `WithSum`, the plain filter of the source entries by sum.
- The fuzzy search against `Qualifying(AllMembers(...))`, the filter over the whole bucket index with no pruning.

## Model

| member | source | states |
|---|---|---|
| Colors.UnpackPack | ColorMatcher/ColorMatcher.Logic/ColorMatcher.cs:59-79 | Unpacking the packed pixel gives back the same colour, so the fuzzy search compares the pixel's own channels |
| Colors.PackInjective | ColorMatcher/ColorMatcher.Logic/ColorCatalogue.cs:28 | Two colours share an exact-index key if and only if they are equal, alpha included |
| Colors.RgbSum | ColorMatcher/ColorMatcher.Logic/ColorCatalogue.cs:29 | Every bucket key, a channel sum, lies in 0..765 |
| Colors.DefaultWrapper | ColorMatcher/ColorMatcher.Logic/ColorWrapper.cs:36-39 | A wrapper from the parameterless constructor holds `Color.Empty`: alpha and all three channels 0, packed key 0, until a setter runs |
| Colors.SetColor | ColorMatcher/ColorMatcher.Logic/ColorWrapper.cs:41-44 | The new colour has alpha 255 and exactly the three given channels |
| Colors.SetRed | ColorMatcher/ColorMatcher.Logic/ColorWrapper.cs:15-19 | After setting Red to v, reading Red gives v, Green and Blue are unchanged, and alpha is 255 |
| Colors.SetGreen | ColorMatcher/ColorMatcher.Logic/ColorWrapper.cs:20-24 | After setting Green to v, reading Green gives v, Red and Blue are unchanged, and alpha is 255 |
| Colors.SetBlue | ColorMatcher/ColorMatcher.Logic/ColorWrapper.cs:26-30 | After setting Blue to v, reading Blue gives v, Red and Green are unchanged, and alpha is 255 |
| Colors.WrapperKeepsColor | ColorMatcher/ColorMatcher.Logic/ColorWrapper.cs:31-34 | The colour constructor stores the colour unchanged, and the getters read its channels |
| Colors.SettersBuildOpaqueColor | ColorMatcher/ColorMatcher.Logic/ColorWrapper.cs:15-30 | Setting the three channels, in each of the six orders and from any prior colour, yields the opaque colour with exactly those channels: every wrapper on which a channel setter ran has alpha 255 |
| ColorCatalogue.ToDictionary | ColorMatcher/ColorMatcher.Logic/ColorCatalogue.cs:28 | On success, every key maps to a source entry whose colour packs to that key, and every source entry is indexed under its packed colour |
| ColorCatalogue.DictionarySucceedsIffDistinct | ColorMatcher/ColorMatcher.Logic/ColorCatalogue.cs:28 | Building the exact index succeeds if and only if no two entries share a packed colour |
| ColorCatalogue.DictionaryHasOneKeyPerEntry | ColorMatcher/ColorMatcher.Logic/ColorCatalogue.cs:28 | A successfully built exact index has exactly one key per source entry |
| ColorCatalogue.DictionaryRejectsFirstDuplicate | ColorMatcher/ColorMatcher.Logic/ColorCatalogue.cs:28 | A failure names the packed colour of the first entry that repeats an earlier entry's; nothing is overwritten |
| ColorCatalogue.WithSum | ColorMatcher/ColorMatcher.Logic/ColorCatalogue.cs:29 | The reference filter: everything it returns is a source entry with the given sum |
| ColorCatalogue.WithSumKeeps | ColorMatcher/ColorMatcher.Logic/ColorCatalogue.cs:29 | The reference filter keeps every source entry with the given sum |
| ColorCatalogue.IndexOfKey | ColorMatcher/ColorMatcher.Logic/ColorCatalogue.cs:29 | Returns the position of the first group with the key, or the length when no group has it |
| ColorCatalogue.ToLookup | ColorMatcher/ColorMatcher.Logic/ColorCatalogue.cs:29 | Keys are distinct; each group is non-empty and holds exactly the source entries of its sum, in source order; every entry's sum is a key |
| ColorCatalogue.LookupKeysInFirstAppearanceOrder | ColorMatcher/ColorMatcher.Logic/ColorCatalogue.cs:29 | Groups come in the order their sums first appear in the deserialised dictionary |
| ColorCatalogue.BucketIsFilter | ColorMatcher/ColorMatcher.Logic/ColorCatalogue.cs:41-45 | Looking up any sum, present or not, yields exactly the source entries with that sum, in source order |
| ColorCatalogue.LookupHasOneGroupPerSum | ColorMatcher/ColorMatcher.Logic/ColorCatalogue.cs:29 | The number of groups equals the number of distinct channel sums |
| ColorCatalogue.LookupMembersFromSource | ColorMatcher/ColorMatcher.Logic/ColorCatalogue.cs:29 | Every member of a group has its group's key as sum and is a source entry |
| ColorCatalogue.Build | ColorMatcher/ColorMatcher.Logic/ColorCatalogue.cs:22-31 | Succeeds if and only if packed colours are distinct. On success the exact index has one key per entry and maps each entry's packed colour to it. On failure it names the first duplicate |
| ColorCatalogue.BuildIsWellFormed | ColorMatcher/ColorMatcher.Logic/ColorCatalogue.cs:47-50 | A built catalogue is well formed: both indexes are keyed by what they claim and hold the same entries. Its bucket lookup equals the reference filter for every sum |
| ColorCatalogue.BuiltBucketShape | ColorMatcher/ColorMatcher.Logic/ColorCatalogue.cs:29 | Bucket keys of a built catalogue lie in 0..765, there is one group per distinct sum, and groups follow first appearance |
| ColorCatalogue.WellFormedIndexesAgree | ColorMatcher/ColorMatcher.Logic/ColorCatalogue.cs:38-45 | In a well-formed catalogue an entry is in some bucket if and only if the exact index maps its packed colour to it |
| ColorCatalogue.BuildKeepsAlpha | ColorMatcher/ColorMatcher.Logic/ColorCatalogue.cs:28 | If every source colour is opaque, every colour in the exact index is opaque |
| ColorCatalogue.BucketsAreSingletonsWhenSumsDiffer | ColorMatcher/ColorMatcher.Logic.Tests/ColorCatalogueUnitTests.cs:45-69 | When no two source colours share a sum, there is one group per entry and each group holds exactly one entry |
| ColorMatcher.NewCandidate | ColorMatcher/ColorMatcher.Logic/ColorMatcher.cs:29-37 | Deviations are the absolute channel differences. The average is their mean rounded down: three times it is at most their sum, and the sum is less than three times it plus three |
| ColorMatcher.QualifyingIsFilter | ColorMatcher/ColorMatcher.Logic/ColorMatcher.cs:94-105 | Every candidate the per-group filter keeps scores a member within the fuzziness on all three channels, and every such member is kept |
| ColorMatcher.QualifyingAppend | ColorMatcher/ColorMatcher.Logic/ColorMatcher.cs:89-108 | Filtering two member lists one after the other gives the concatenation of filtering each, in order |
| ColorMatcher.AllMembers | ColorMatcher/ColorMatcher.Logic/ColorMatcher.cs:85-108 | An entry is in the concatenation if and only if it is a member of some group |
| ColorMatcher.GatherIsSound | ColorMatcher/ColorMatcher.Logic/ColorMatcher.cs:85-108 | Whatever the pruning bound, every gathered candidate scores a bucket member within the fuzziness on every channel |
| ColorMatcher.FirstBest | ColorMatcher/ColorMatcher.Logic/ColorMatcher.cs:110-111 | The chosen candidate has the least average deviation, and every earlier candidate has a strictly greater one |
| ColorMatcher.SearchCandidates | ColorMatcher/ColorMatcher.Logic/ColorMatcher.cs:74-118 | A fuzzy result is found only for positive fuzziness and names a bucket member within the fuzziness on every channel |
| ColorMatcher.FuzzySearch | ColorMatcher/ColorMatcher.Logic/ColorMatcher.cs:74-118 | Fuzziness at most 0 finds nothing; a found colour comes from a bucket of the catalogue and is within the fuzziness of the pixel on every channel |
| ColorMatcher.MatchPixel | ColorMatcher/ColorMatcher.Logic/ColorMatcher.cs:56-72 | An exact hit returns that entry whatever the fuzziness. A miss with fuzziness at most 0 returns not found. A fuzzy match is a bucket member within the fuzziness on every channel |
| ColorMatcher.AdmissibleWithinSumBound | ColorMatcher/ColorMatcher.Logic/ColorMatcher.cs:80-81 | If every channel is within f, the channel sums differ by at most 3f |
| ColorMatcher.PruningIsLossless | ColorMatcher/ColorMatcher.Logic/ColorMatcher.cs:80-108 | On sum-keyed buckets, the candidates from pruned buckets are exactly, and in the same order, those from filtering every entry |
| ColorMatcher.GatherMonotone | ColorMatcher/ColorMatcher.Logic/ColorMatcher.cs:86-103 | Widening the fuzziness and the pruning bound never empties a non-empty candidate list |
| ColorMatcher.MatchPixelMonotone | ColorMatcher/ColorMatcher.Logic/ColorMatcher.cs:62-103 | A pixel matched at fuzziness f is matched at every larger fuzziness |
| ColorMatcher.MatchPixelFindsIffAdmissible | ColorMatcher/ColorMatcher.Logic/ColorMatcher.cs:74-118 | On an exact miss with positive fuzziness, a match is found if and only if some bucket member is within the fuzziness on every channel |
| ColorMatcher.MatchPixelPicksFirstBest | ColorMatcher/ColorMatcher.Logic/ColorMatcher.cs:107-114 | The fuzzy winner is, among all admissible candidates in group-then-member order, one of least average deviation with no earlier candidate as good |
| ColorMatcher.UniqueAdmissibleIsFound | ColorMatcher/ColorMatcher.Logic/ColorMatcher.cs:74-118 | On an exact miss, when exactly one bucket member is within the fuzziness on every channel, that member is the match |
| ColorMatcher.MatchPixelIsOptimal | ColorMatcher/ColorMatcher.Logic/ColorMatcher.cs:36-111 | On an exact miss with positive fuzziness and some admissible bucket member, a match is found, and no admissible member has a smaller truncated average deviation than it |
| ColorMatcher.LookupHoldsSource | ColorMatcher/ColorMatcher.Logic/ColorCatalogue.cs:29 | The bucket index built from some entries is keyed by sum and holds exactly those entries |
| ColorMatcher.AllMembersAreEntries | ColorMatcher/ColorMatcher.Logic/ColorCatalogue.cs:38-45 | In a well-formed catalogue the bucket members are exactly the exact-index entries |
| ColorMatcher.MatchPixelOnCatalogue | ColorMatcher/ColorMatcher.Logic/ColorMatcher.cs:56-118 | Against a well-formed catalogue every match is a catalogue entry. On an exact miss with positive fuzziness, a match exists if and only if some catalogue colour is within the fuzziness on every channel |
| ColorMatcher.TranslucentPixelMatchesOnlyFuzzily | ColorMatcher/ColorMatcher.Logic/ColorMatcher.cs:33-80 | A non-opaque pixel with an opaque entry's R, G and B misses the exact index. It is not found at fuzziness at most 0, and is found at average deviation 0 at fuzziness 1 or more |
| ColorMatcher.Wrap32 | ColorMatcher/ColorMatcher.Logic/ColorMatcher.cs:81 | The result is congruent to the argument modulo 2^32 and equals it when it fits in an int |
| ColorMatcher.FuzzySearchAsWritten | ColorMatcher/ColorMatcher.Logic/ColorMatcher.cs:74-118 | With the 32-bit `3 * rgbFuzziness` bound: fuzziness at most 0 finds nothing, and a found colour is a bucket member within the fuzziness on every channel |
| ColorMatcher.MatchPixelAsWritten | ColorMatcher/ColorMatcher.Logic/ColorMatcher.cs:56-118 | With the 32-bit pruning bound: an exact hit returns that entry, and a fuzzy match is within the fuzziness on every channel |
| ColorMatcher.AsWrittenAgreesBelowOverflow | ColorMatcher/ColorMatcher.Logic/ColorMatcher.cs:81 | While 3f fits in an int, the 32-bit matcher agrees with the one using the unbounded `3 * f` |
| ColorMatcher.NegativeBoundPrunesAll | ColorMatcher/ColorMatcher.Logic/ColorMatcher.cs:85-87 | A negative pruning bound discards every bucket |
| ColorMatcher.Singleton | ColorMatcher/ColorMatcher.Logic/ColorCatalogue.cs:22-31 | The constructor, given a one-entry dictionary, builds this catalogue; it is well formed and its buckets hold just that entry |
| ColorMatcher.SingletonFindsAdmissible | ColorMatcher/ColorMatcher.Logic/ColorMatcher.cs:74-118 | With the unbounded `3 * f` bound, the matcher matches a pixel within the fuzziness of a one-entry catalogue's colour to that entry |
| ColorMatcher.AsWrittenMissesOnOverflow | ColorMatcher/ColorMatcher.Logic/ColorMatcher.cs:81-87 | At fuzziness 715827883 `FuzzySearch`'s wrapped 32-bit `3 * rgbFuzziness` prunes the only bucket, so nothing is found |
| ColorMatcher.FirstOverflowWraps | ColorMatcher/ColorMatcher.Logic/ColorMatcher.cs:81 | At fuzziness 715827883, 3f is 2147483649, which wraps to -2147483647 |
| ColorMatcher.AsWrittenLosesMatchOnOverflow | ColorMatcher/ColorMatcher.Logic/ColorMatcher.cs:81-87 | A pixel within 1 of a one-entry catalogue's colour is found at fuzziness 1, but not at 715827883 as written; with the unbounded bound it is found there too |
| Scenarios.WrapperSetterScenario | ColourMatcher/ColourMatcher.Logic.Tests/ColorWrapperUnitTests.cs:21-46 | From (255,100,100,100), setting Red, Green or Blue to 200 gives the expected opaque colour |
| Scenarios.InMockIndex | ColourMatcher/ColourMatcher.Logic.Tests/ColorMatcherUnitTests.cs:35-40 | The mocked exact index has exactly the given keys, each mapped to its entry |
| Scenarios.SubstituteMisses | ColourMatcher/ColourMatcher.Logic.Tests/ColorMatcherUnitTests.cs:35-41 | A pixel whose packed colour is none of the mocked keys misses the exact index, and its bucket index holds exactly the mocked entries |
| Scenarios.SubstituteFindsExact | ColourMatcher/ColourMatcher.Logic.Tests/ColorMatcherUnitTests.cs:54-66 | A pixel packing to a mocked key gets that key's entry, whatever the fuzziness |
| Scenarios.SubstituteFindsUnique | ColourMatcher/ColourMatcher.Logic.Tests/ColorMatcherUnitTests.cs:77-92 | On a miss, the only mocked entry within the fuzziness is the match |
| Scenarios.SubstituteFindsNothing | ColourMatcher/ColourMatcher.Logic.Tests/ColorMatcherUnitTests.cs:35-43 | On a miss with no mocked entry within the fuzziness, nothing is found |
| Scenarios.ExactColorScenario | ColourMatcher/ColourMatcher.Logic.Tests/ColorMatcherUnitTests.cs:51-71 | The teal pixel matches the "teal" entry exactly at fuzziness 0 |
| Scenarios.CloseColorScenario | ColourMatcher/ColourMatcher.Logic.Tests/ColorMatcherUnitTests.cs:74-97 | The teal pixel finds "tealish", two away on every channel, at fuzziness 2 |
| Scenarios.FarColorScenario | ColourMatcher/ColourMatcher.Logic.Tests/ColorMatcherUnitTests.cs:31-48 | With only the two dark greys, the teal pixel is not found at fuzziness 2 |

## Left out

- The file constructor `ColorCatalogue(string filePath)` (ColorMatcher/ColorMatcher.Logic/ColorCatalogue.cs:52-59) is not modelled. It is file I/O plus JSON deserialisation. The model starts from the deserialised `Dictionary<string, ColorWrapper>`, given as a sequence of (name, wrapper) pairs in iteration order.
- `Bitmap.GetPixel` (ColorMatcher.cs:58) is image access. `MatchPixel` takes the sampled pixel colour as a parameter.
- `Color.ToArgb` returns a signed 32-bit int. It is modelled as the unsigned packed value `Pack`, which is in bijection with it. Keys are only compared for equality, and `Unpack` inverts `Pack` as `Color.FromArgb(int)` inverts `ToArgb`.
- `Dictionary` and `ILookup` hash-order details are not modelled. Iteration order is the order of the source sequence, and the bucket index is an ordered sequence of groups.
- Last-wins overwriting of duplicate packed colours is not modelled, because `ToDictionary` (ColorCatalogue.cs:28) throws on a repeated key. `Build` returns `Failure(DuplicateArgb(key))` for the first repeated key instead.
- Negative fuzziness is not treated as an error, because `FuzzySearch` only tests `rgbFuzziness > 0` (ColorMatcher.cs:76). Any fuzziness at most 0 means "exact match only".
- ColorMatcher.MatchPixel: uses the unbounded pruning bound `3 * f`, the corrected behaviour named under "## Findings". The 32-bit bound that `FuzzySearch` actually computes is modelled by `ColorMatcher.MatchPixelAsWritten`.
- Read-only exposure of the two indexes (ColorCatalogue.cs:38, 45) is not modelled as a property. It is structural: `Catalogue` is an immutable value and nothing updates it.
- The mocked catalogue in the matcher tests is built by `Scenarios.Substitute` and `Scenarios.MockIndex`. These functions have no contracts of their own; `Scenarios.InMockIndex` and `Scenarios.SubstituteMisses` state what they hold.
- ColorCatalogueUnitTests.cs:20-43 (three greys, exact index) is covered by `ColorCatalogue.Build` in general form, not for the concrete three colours.
- ColorCatalogueUnitTests.cs:45-69 (bucket index) is likewise covered by `ColorCatalogue.BucketsAreSingletonsWhenSumsDiffer` in general form.
- `Downloader`, the HTTP handler, the ASP.NET controllers, `Startup` and `ImageOptions` are hosting, network and configuration code, outside the matching logic.
- `AverageRgbDeviation` is a `decimal` in `CandidateColor`, but it is computed by integer division. It is modelled as the natural number `(dR+dG+dB)/3`, without decimal arithmetic.

## Findings

| source | as written | input that shows it | evidently intended | confidence | as-written member | corrected member |
|---|---|---|---|---|---|---|
| ColorMatcher/ColorMatcher.Logic/ColorMatcher.cs:81 | `3 * rgbFuzziness` is an unchecked 32-bit product and can wrap to a negative bound, so pruning discards every bucket | A catalogue holding only black (255,0,0,0), pixel (255,0,0,1), fuzziness 715827883: 3f wraps to -2147483647 and the result is not found, although the same pixel is found at fuzziness 1 | The bound is three times the fuzziness, so every admissible entry survives pruning and a larger fuzziness never loses a match | low: the fuzziness comes unchecked from configuration, but needs a value above 715 million; not executed | ColorMatcher.MatchPixelAsWritten (exhibited by ColorMatcher.AsWrittenLosesMatchOnOverflow) | ColorMatcher.MatchPixel (proved by ColorMatcher.MatchPixelMonotone and ColorMatcher.PruningIsLossless) |
