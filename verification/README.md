# fetch-icons in Dafny

A model of the build-time icon pipeline of the fetch-icons repository:
`scripts/fetch-icons.ts` and its older twin `scripts/fetch-icons.js`. For
each icon set named in `iconSets` the scripts do five things:

1. Read a Figma frame.
2. Collect the INSTANCE nodes reachable from the frame through FRAME nodes
   (`getImageNodes`).
3. Resolve a download URL for every icon. The TypeScript script sends
   requests of at most 200 ids; the JavaScript script sends one request.
4. Sort the icons by name and download the SVG files in batches of 10.
5. Clean each SVG up and write `<set>.ts`. The file holds one
   `export const Icon<Name> = (color: string) => ...` declaration per icon
   that was downloaded, followed by the `<set>IconSet` registry.

Every network result is an input value. `Figma.Net` holds the frame
document for a node id, the reply to an image-URL request for an id list,
and the text of a file for a URL. In each, `None` means the request failed.
The icons folder is a map from file name to text (`Driver.Disk`).

The model has one module per concern:

- `Names`: `capitalize` and `normalizeName`.
- `Svg`: the three regular-expression rewrites of `cleanupSvg`, modelled as
  left-to-right scanners with JavaScript's lazy matching. In them `.` stops
  at line terminators.
- `Records`: an insertion-ordered JavaScript object, with `r[k] = v` and
  `Object.assign`.
- `Tree`: `getImageNodes`, with a spec function and an imperative method
  that has the source's two loops.
- `Batching`: the `for (i = 0; i < n; i += SIZE) slice(i, i + SIZE)` loops.
- `Sorting`: the stable sort of `iconsData` by name.
- `Assembly`: the file loop, the declarations and the registry.
- `Figma`: the shared inputs and outcomes, and the node-id conversion.
- `FetchIconsTs` and `FetchIconsJs`: the two variants of
  `getImagesFromFrame`.
- `Driver`: the loop over the icon sets.

Three behaviours of the code shape the model:

- A frame without icons calls `process.exit(1)`. That ends the whole run,
  so later sets are not processed.
- A set's old file is removed before its icons are fetched. A set that
  fails therefore leaves no file behind; it does not keep the old one.
- Only the TypeScript script prints the "Failed to fetch" report.

## Model

| member | source | states |
|---|---|---|
| Names.Capitalize | scripts/fetch-icons.ts:53 | the first character is upper-cased, the rest is kept, and "" stays "" |
| Names.Split | scripts/fetch-icons.ts:55-57 | a name with k separators splits into k + 1 segments, and no segment holds a separator |
| Names.SplitRejoin | scripts/fetch-icons.ts:55-57 | the segments are exactly the text between the separators: putting the separators back between them gives the name again |
| Names.NormalizeNameIsPascal | scripts/fetch-icons.ts:55-59 | `normalizeName` equals a character-by-character reference: separators are dropped, and a character is upper-cased exactly when it starts a segment |
| Names.Pascal | scripts/fetch-icons.ts:55-59 | the reference result has no separator, and at a segment start its first character is not an ASCII lower-case letter |
| Names.NormalizeNameHasNoSeparator | scripts/fetch-icons.ts:55-59 | the normalised name holds neither `_` nor `-` |
| Names.PascalLength | scripts/fetch-icons.ts:55-59 | the result is the input minus its separators: length is the input length less the separator count |
| Names.NormalizeNameIdempotent | scripts/fetch-icons.ts:55-59 | normalising twice gives the same result as normalising once |
| Names.Upper | scripts/fetch-icons.ts:53 | ASCII `toUpperCase`: a lower-case letter becomes its own upper-case letter (32 code points lower), every other character is kept |
| Names.PascalAcrossSeparator | scripts/fetch-icons.ts:55-59 | a separator ends one segment and capitalises the next |
| Names.PascalOfWord | scripts/fetch-icons.ts:53-59 | a separator-free word is simply capitalised |
| Names.TwoWords | scripts/fetch-icons.js:39-45 | two words joined by `_` or `-` become their concatenation, each capitalised |
| Names.NormalizeArrowLeft | scripts/fetch-icons.ts:55-59 | "arrow-left" gives "ArrowLeft" |
| Names.NormalizeArrowRight | scripts/fetch-icons.js:41-45 | "arrow_right" gives "ArrowRight" |
| Svg.LazyTail | scripts/fetch-icons.ts:62-63 | `.*?X` matches the shortest prefix ending in X that has no line terminator before it, and fails only when a line terminator comes before every X |
| Svg.TagMatch | scripts/fetch-icons.ts:62 | `<\/?svg.*?>` matches only text starting with `<svg` or `</svg`; a match ends at the first `>` after the head with no line terminator before it, and there is no match exactly when a line terminator comes before every such `>` |
| Svg.FillMatch | scripts/fetch-icons.ts:63 | `fill=["'].+?["']` matches only after `fill=`, a quote and a first value character that is not a line terminator; a match ends at the first quote after that character with no line terminator before it, and there is no match exactly when a line terminator comes before every such quote |
| Svg.RemoveNewlinesContents | scripts/fetch-icons.ts:68 | the result holds every character other than `\n` as often as the input does, and no `\n` |
| Svg.RemoveNewlinesAppend | scripts/fetch-icons.ts:68 | removal works piece by piece over a concatenation, so the kept characters stay in order |
| Svg.CleanupSvgIsOneLine | scripts/fetch-icons.ts:61-69 | `cleanupSvg` output never contains `\n` |
| Svg.CleanupSvgKeepsPlainText | scripts/fetch-icons.ts:61-69 | markup with no svg tag, no `fill=` and no newline comes back unchanged |
| Svg.RemoveNewlinesKeepsOtherText | scripts/fetch-icons.ts:68 | text with no `\n` is left as it is |
| Svg.StripSvgTagsKeepsOtherText | scripts/fetch-icons.ts:66 | text with no `<svg` and no `</svg` is left as it is |
| Svg.ReplaceFillsKeepsOtherText | scripts/fetch-icons.ts:67 | text with no `fill=` is left as it is |
| Svg.LazyTailStopsAtFirstClose | scripts/fetch-icons.ts:62-63 | the lazy match ends at the first closing character |
| Svg.LazyTailBlocked | scripts/fetch-icons.ts:62-63 | a line terminator before any closing character makes the lazy match fail |
| Svg.OpeningTagRemoved | scripts/fetch-icons.ts:62-66 | a one-line `<svg ...>` tag is deleted and scanning resumes after it |
| Svg.ClosingTagRemoved | scripts/fetch-icons.ts:62-66 | a `</svg ...>` tag is deleted and scanning resumes after it |
| Svg.TagSpanningLinesKept | scripts/fetch-icons.ts:62-66 | a tag broken by a line terminator before its `>` is not removed there |
| Svg.FillReplaced | scripts/fetch-icons.ts:63-67 | a fill attribute with either quote is replaced by `fill="${color}"`, ending at the first quote after the first value character |
| Svg.FillSpanningLinesKept | scripts/fetch-icons.ts:63-67 | a fill value broken by a line terminator is not replaced there |
| Svg.ReplaceFillsCopiesPrefix | scripts/fetch-icons.ts:67 | text without `fill=` before an attribute is copied unchanged |
| Svg.ReplaceOneFill | scripts/fetch-icons.ts:67 | `fill="<colour>"` in otherwise fill-free text becomes the placeholder and nothing else changes |
| Svg.OneFillReplaced | scripts/fetch-icons.js:47-55 | in markup without svg tags and with one fill attribute, `cleanupSvg` turns `fill="<colour>"` into `fill="${color}"` and drops the line breaks of the text around it, changing nothing else |
| Svg.WrappedFillReplaced | scripts/fetch-icons.ts:61-69 | for an `<svg ...>` element with a one-line opening tag around such markup, both tags are removed as well |
| Svg.StripSvgTagsCopiesPrefix | scripts/fetch-icons.ts:66 | text in which no svg tag starts is copied unchanged before a following `<`; no tag can start in it and run on |
| Svg.FillWithColourReplaced | scripts/fetch-icons.ts:63-67 | a complete fill attribute is replaced by the placeholder |
| Records.PutGet | scripts/fetch-icons.ts:104 | after `r[k] = v`, `k` reads `v` and every other key reads as before; a new key is appended to the key order and an old one keeps its place |
| Records.PutValid | scripts/fetch-icons.ts:104 | `r[k] = v` keeps the keys distinct and matched with the values |
| Records.AssignGet | scripts/fetch-icons.ts:108 | after `Object.assign(r, s)` a key holds `s`'s value where `s` has the key and its old value otherwise (the later write wins) |
| Records.AssignFirstGet | scripts/fetch-icons.ts:108 | after the first n steps of `Object.assign`, exactly the first n keys of `s` take `s`'s value |
| Records.AssignValid | scripts/fetch-icons.ts:108 | `Object.assign` keeps a record well formed |
| Records.AmongFirstIsIn | scripts/fetch-icons.ts:108 | the recursive "among the first n keys" test agrees with membership in the key prefix |
| Tree.GetImageNodes | scripts/fetch-icons.ts:98-112 | the two loops and the recursion into FRAME children compute the spec function `ImageNodes` |
| Tree.ImageNodesSpec | scripts/fetch-icons.ts:98-112 | keys are distinct; an id is a key exactly when a reachable INSTANCE node has it; its value is the normalised name of the last such node in walk order |
| Tree.ImageNodesWrites | scripts/fetch-icons.js:86-100 | every id reads as the last write among the reachable INSTANCE nodes, in walk order |
| Tree.PutInstancesWrites | scripts/fetch-icons.ts:101-105 | the first loop leaves each id with the last INSTANCE child's normalised name, or its old value |
| Tree.MergeFramesWrites | scripts/fetch-icons.ts:107-109 | the second loop leaves each id with the last write found under the FRAME children, or its old value |
| Tree.ImageNodesValid | scripts/fetch-icons.ts:98-112 | the result's keys are distinct and exactly the ids with a value |
| Tree.PutInstancesValid | scripts/fetch-icons.ts:101-105 | the first loop keeps the record well formed |
| Tree.MergeFramesValid | scripts/fetch-icons.ts:107-109 | the second loop keeps the record well formed |
| Tree.LastWriteAppend | scripts/fetch-icons.ts:101-109 | in a concatenated walk, a write in the later part wins |
| Tree.LastWriteAbsent | scripts/fetch-icons.ts:98-112 | no write for an id exactly when no node of the walk has it |
| Tree.LastWriteIsLast | scripts/fetch-icons.ts:98-112 | a present value comes from a node with that id after which no node has it |
| Tree.ReachableAreInstances | scripts/fetch-icons.ts:101 | only INSTANCE nodes are recorded |
| Tree.InstancesAmongAreInstances | scripts/fetch-icons.ts:101 | the first loop only takes INSTANCE children |
| Tree.FramesHoldInstances | scripts/fetch-icons.ts:107 | what the FRAME children contribute is INSTANCE nodes only |
| Tree.PutInstancesIgnoresSubtrees | scripts/fetch-icons.ts:101-105 | the first loop does not look below a child |
| Tree.MergeFramesIgnoresSubtrees | scripts/fetch-icons.ts:107-109 | the second loop looks below FRAME children only |
| Tree.NonFramesNotDescended | scripts/fetch-icons.ts:98-112 | changing what lies under INSTANCE or other non-FRAME children does not change the result |
| Batching.Slice | scripts/fetch-icons.ts:158 | `slice(start, end)` clamps both bounds to the length and is empty when `end` is not after `start` |
| Batching.ChunksCover | scripts/fetch-icons.ts:155-158 | the slices put back together are the whole list, in order |
| Batching.ChunksBounded | scripts/fetch-icons.ts:189-193 | no slice is empty and none is longer than the batch size |
| Batching.ChunksWithin | scripts/fetch-icons.ts:155-158 | every element of every slice comes from the list |
| Batching.ChunksCount | scripts/fetch-icons.ts:155 | there are ceil(n / size) slices |
| Batching.SliceCountIsCeiling | scripts/fetch-icons.ts:155 | the number of slices the loop takes is ceil(n / size) |
| Batching.ChunkAt | scripts/fetch-icons.ts:155-158 | slice k is `xs[k*size .. min(k*size + size, n)]`, so the slices are consecutive |
| Batching.ChunksFromStep | scripts/fetch-icons.ts:155-158 | one turn of the loop takes the next slice and moves `i` on by the size |
| Batching.OneChunk | scripts/fetch-icons.ts:155-158 | a list no longer than the batch size is taken in one slice |
| Batching.TwoHundredFiftyIds | scripts/fetch-icons.ts:155-158 | 250 ids need exactly two URL requests, of 200 and 50 ids |
| Sorting.SortPermutes | scripts/fetch-icons.ts:170 | sorting keeps every entry and adds none (same multiset) |
| Sorting.SortSorted | scripts/fetch-icons.ts:170 | after the sort no name comes after the name of a later entry |
| Sorting.SortStable | scripts/fetch-icons.ts:170 | entries with the same name keep their relative order |
| Sorting.SortUnique | scripts/fetch-icons.ts:170 | when no two icons share a name, the sorted result does not depend on the order in which the entries arrived |
| Sorting.SortedUnique | scripts/fetch-icons.ts:170 | two name-sorted lists holding the same entries, no two sharing a name, are equal |
| Sorting.SharedNameKeepsReplyOrder | scripts/fetch-icons.ts:170 | two icons with the same name keep their arrival order, so with shared names the order does show through |
| Sorting.InsertPermutes | scripts/fetch-icons.js:150 | inserting adds exactly the inserted entry |
| Sorting.InsertSorted | scripts/fetch-icons.js:150 | inserting into a sorted list keeps it sorted |
| Sorting.InsertStable | scripts/fetch-icons.js:150 | an inserted entry goes after the entries with its name |
| Sorting.InsertMembers | scripts/fetch-icons.js:150 | inserting adds no element other than the inserted one |
| Sorting.WithNameAppend | scripts/fetch-icons.ts:170 | the entries with a given name in a concatenation are those of each part, in order |
| Sorting.StrLessIrreflexive | scripts/fetch-icons.ts:170 | no name sorts before itself |
| Sorting.StrLessTransitive | scripts/fetch-icons.ts:170 | the name order is transitive |
| Sorting.StrLessAsymmetric | scripts/fetch-icons.ts:170 | two names are never each before the other |
| Sorting.StrLessTotal | scripts/fetch-icons.ts:170 | two different names are ordered one way or the other |
| Sorting.NameLeqTransitive | scripts/fetch-icons.ts:170 | "not after" on entries is transitive |
| Assembly.Settle | scripts/fetch-icons.ts:177-187 | `getPromise` gives the icon's name and text exactly when its download worked |
| Assembly.SettleAll | scripts/fetch-icons.ts:192-194 | one outcome per item of the batch, in order |
| Assembly.FetchIconFiles | scripts/fetch-icons.ts:189-206 | the batches are the consecutive slices of the list; the declarations and icon names pushed are those of exactly the successful downloads, in list order |
| Assembly.PushFetched | scripts/fetch-icons.ts:196-205 | the inner loop pushes one declaration and one name per fulfilled outcome with a value, in order |
| Assembly.KeptStep | scripts/fetch-icons.ts:197 | one more item is kept exactly when its download worked |
| Assembly.AppendStep | scripts/fetch-icons.ts:198-204 | one more kept icon adds one declaration and one registry name |
| Assembly.KeptAndFailed | scripts/fetch-icons.ts:196-205 | kept icons plus failed downloads make up all items |
| Assembly.KeptMembers | scripts/fetch-icons.js:158-182 | every kept icon comes from an item whose download gave its text, and every such item is kept |
| Assembly.KeptSorted | scripts/fetch-icons.ts:170-206 | when the items are sorted by name, so are the kept icons |
| Assembly.DeclarationsMatchRegistry | scripts/fetch-icons.ts:198-214 | declaration k declares registry entry k |
| Assembly.DeclarationLineBreaks | scripts/fetch-icons.ts:199-201 | a declaration holds exactly two line breaks, whatever the downloaded markup, when the icon's name has none |
| Assembly.Lower | scripts/fetch-icons.ts:211 | ASCII `toLocaleLowerCase`: upper-case letters become lower-case, other characters are kept |
| Assembly.RegistryEntryCount | scripts/fetch-icons.ts:210-214 | with comma-free names the joined registry has one comma fewer than it has entries |
| Figma.EntriesOf | scripts/fetch-icons.ts:160-165 | one entry per reply entry, with `String(url)` and the node's name |
| Figma.FailureReport | scripts/fetch-icons.ts:216-225 | the emitted and failed counts add up to the resolved count; the report appears exactly when a download failed and gives that number |
| Figma.ReplaceFirstAt | scripts/fetch-icons.ts:239 | only the first dash changes |
| Figma.ReplaceFirstAbsent | scripts/fetch-icons.ts:239 | without a dash the id is unchanged |
| Figma.NodeIdConverted | scripts/fetch-icons.ts:239 | "A-B" with a dash-free A becomes "A:B" |
| FetchIconsTs.GetImagesFromFrame | scripts/fetch-icons.ts:123-236 | the method computes `SetResult`; its URL requests are a prefix of the 200-id slices of the found ids; all of them, each answered, when the set is written; none when the frame failed or held no icon; and on a URL failure they end with the first request that failed |
| FetchIconsTs.FetchAllUrls | scripts/fetch-icons.ts:155-166 | the URL loop resolves the slices in order; on success it has made every request and each was answered; on failure its requests end with the first one that failed, all earlier ones answered |
| FetchIconsTs.WriteIcons | scripts/fetch-icons.ts:189-225 | the file loop, the registry and the failure report give the assembled outcome |
| FetchIconsTs.UrlStep | scripts/fetch-icons.ts:155-165 | one turn of the URL loop takes the next slice and extends the resolved entries by its reply |
| FetchIconsTs.ResolveStep | scripts/fetch-icons.ts:158-165 | one more request adds its reply's entries, or fails the resolution |
| FetchIconsTs.ResolveFailurePersists | scripts/fetch-icons.ts:155-166 | once a request fails, the whole set fails |
| FetchIconsTs.RequestFailed | scripts/fetch-icons.ts:155-166 | once the requests made so far fail, the resolution of all slices fails, and those requests are a prefix of the slices |
| FetchIconsTs.AllRequested | scripts/fetch-icons.ts:155-158 | when the loop index passes the end of the ids, every slice has been requested |
| FetchIconsTs.ResolveFailsIff | scripts/fetch-icons.ts:155-166 | URL resolution fails exactly when one of its requests fails |
| FetchIconsTs.ResolvedNames | scripts/fetch-icons.ts:160-165 | every resolved icon carries the name of one of the image nodes |
| FetchIconsTs.KnownChunks | scripts/fetch-icons.ts:141-158 | every requested id has a name |
| FetchIconsTs.SingleRequest | scripts/fetch-icons.ts:155-166 | with a single slice, resolution is that request's entries |
| FetchIconsJs.GetImagesFromFrame | scripts/fetch-icons.js:114-208 | the method computes `SetResult`; it makes exactly one URL request, carrying every id, when the frame held icons, and none otherwise |
| FetchIconsJs.KnownReply | scripts/fetch-icons.js:144-149 | every id of the reply has a name |
| FetchIconsJs.AgreesWithTs | scripts/fetch-icons.js:144-193 | with at most 200 icons both scripts make the same single request and write the same module; only the report differs |
| Driver.ProcessSet | scripts/fetch-icons.ts:123-236 | one set removes its old file and writes the new module only when it succeeds |
| Driver.FetchAll | scripts/fetch-icons.ts:238-240 | the loop over the sets computes `RunSets` |
| Driver.AfterSetLookup | scripts/fetch-icons.ts:127-135 | a set changes its own file only: it holds the new module when written and is gone otherwise |
| Driver.ExitedIff | scripts/fetch-icons.ts:143-147 | the run ends early exactly when some set's frame has no icon |
| Driver.OtherFilesKept | scripts/fetch-icons.ts:238-240 | files of no set keep their contents |
| Driver.SetFile | scripts/fetch-icons.js:122-212 | every set the run reaches leaves its file holding the new module when written, and no file otherwise |
| Driver.LaterSetsUntouched | scripts/fetch-icons.ts:143-147 | after a set with no icons, the files of the later sets are left as they were |
| Driver.FileNameInjective | scripts/fetch-icons.ts:127 | different set names give different files |
| Driver.FirstFileUnshared | scripts/fetch-icons.ts:30-34 | with distinct set names no later set shares the first set's file |
| Driver.ReachedTail | scripts/fetch-icons.ts:238-240 | reaching set j means the first set did not stop the run |
| Driver.NamesFileTail | scripts/fetch-icons.ts:127 | a name that is no file of the first j+1 sets is no file of the first set |
| Driver.IconSetsDistinct | scripts/fetch-icons.ts:30-34 | the three set names are distinct |
| Driver.ToggleNodeId | scripts/fetch-icons.ts:239 | the "toggle" frame "2403-4364" is requested as "2403:4364" |

## Left out

- Console output is assumed to go to a terminal. `drawProgressBar` and
  `cleanLastLogLine` call `process.stdout.clearLine`, which other outputs
  lack; there the call throws inside the `try` block and the set ends with
  nothing written. The model does not capture that failure.
- Network access, `dotenv`, the access token, the request URLs and headers
  are not modelled. Every reply is an input value of `Figma.Net`: the frame
  document, the URL reply for an id list, or the text of a file. A failed
  or non-2xx request is `None`.
- `fs.existsSync`, `unlink` and `writeFileSync` act on `Driver.Disk`, a map
  from file name to text. The `unlink` callback is asynchronous; it is
  modelled as finished before the write. The folder path is left out; files
  are named `<set>.ts`.
- `process.exit(1)` is modelled as the end of the run (`Run.exited`).
  Console output, the progress bar and its floating-point arithmetic are
  left out.
- `Promise.allSettled` runs the downloads of a batch concurrently. The model
  settles them one after another in batch order; the loop uses them in that
  order.
- The pushes of the file loop are modelled by the helper method
  `PushFetched`, called once per batch.
- `localeCompare` is locale-dependent collation. `Sorting` uses ordinal
  order on characters instead. The sort is modelled as a stable insertion
  sort, matching the stability of `Array.prototype.sort`.
- `toUpperCase` and `toLocaleLowerCase` are modelled on ASCII letters only.
- A URL reply is assumed to name only ids that were requested
  (`Figma.Honest`). A reply naming another id would give the name
  `undefined` and make the sort throw; that case is not modelled.
- JavaScript lists integer-like object keys before the others. The model
  keeps plain insertion order for all keys.
- Records.AssignGet: states the value of every key after `Object.assign`
  but not the resulting key order.
- Backticks or `${` inside SVG markup would break the generated template
  literal. The model treats the markup as plain text.
- The JSON decoding of replies and the `data.nodes[nodeId].document`
  lookup are part of the frame input.
