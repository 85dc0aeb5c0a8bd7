# Pickalo photo culling: a verified model of its core

Pickalo is a photo-culling tool. It shows an "unsorted" collection of photos. Each item is one
file stem, carrying a preview JPEG, a camera raw file, or both. The user walks through the items
and copies the ones to keep into a "sorted" pair of directories. This project models that core
in Dafny and proves what it promises:

- **Pairing** (`Pairing`). `makeJpegRawPhotos` pairs the two directory listings by
  case-insensitive stem. It keeps a stem when exactly one candidate was collected on at least one
  side. It sorts by stem and takes the first candidate per side. Both stores hold a copy of it.
- **Windowing scheduler** (`Scheduler`). The reaction of the renderer store works in three
  stages:
  - It builds the near plan `0, 1, -1, …, 19, -19` and the far plan `0, 1, -1, …, 49, -49`.
  - It prunes its working copy of the published metadata to the near window, then fetches that
    window under a freshness gate, publishing as it goes.
  - It hands the far window to the background queue.
- **Display** (`View`). This covers the record of the sorted collection by prefix, the
  source/destination titles, the image chosen for each item, and `photoSync`, which lists the
  pairs still to be copied.
- **Stores** (`RendererStore.Store`, `PrototypeStore.Store`). These are classes whose setters
  and refresh methods update the fields in place. `React` runs one reaction on the store's
  current state.
- **Metadata server** (`MetaServer`). It holds the cache keyed by path, the work queue, one turn
  of the worker loop, `precacheJpegMeta`, `getJpegMeta`, the shape of `extractJpegMeta` and the
  file filter of `deleteFromDirectory`. `MetaServer.Server` is a class. Each method is proved
  against a transition function (`Step`, `Lookup`, `PrecacheQueue`, `Retain`), and those
  transition functions carry the lemmas.
- **Key bindings** (`Navigation`). This covers pageup/pagedown/up/down, left/right, the
  space/delete decisions and the copies made by the sync button.
- **Shell integration strings** (`ShellEx`). This covers `escapeShellArg`, the command line
  without its switches, and the keys of the four "set as directory" sub-commands.

The following are parameters of the model:

- Directory listings are `string -> seq<FileDetail>` (or, in the prototype,
  `DirectoryHandle -> seq<FileDetail>`).
- The image library is `Imaging(fileUrl, sharp)`.
- The window height is an `int`.
- The reaction's view of the world is an `Invocation`. It holds:
  - the captured index;
  - the live value of `_selectedPhotoIndex` at the k-th gate check;
  - the elapsed time at the k-th fetch;
  - the answers of `getJpegMeta`.

Two behaviours of the code are worth knowing before reading the lemmas:

- **Pairing.** A stem survives when either side has exactly one candidate, so a stem with
  several previews and one raw file is kept, with its first preview
  (`Pairing.DuplicatePreviewsKeptBesideSingleRaw`).
- **`getJpegMeta`.** It never compares the window height; only a queued prefetch re-extracts
  when the height changes (`MetaServer.LookupIgnoresWindowHeight`,
  `MetaServer.PrefetchInvalidatesOnHeightChange`).

## Model

| member | source | states |
|---|---|---|
| Pairing.SplitName | src/renderer/src/store.ts:268-271 | a name yields a split exactly when it contains a dot; the stem and extension are the lower-cased text before and after the last dot |
| Pairing.GroupByStem | src/renderer/src/store.ts:266-282 | the record built by the forEach/push loop has a key exactly for the stems with candidates, each holding that stem's candidates in listing order; its keys are distinct |
| Pairing.CandidatesGrow | src/renderer/src/store.ts:267-282 | visiting one more file of the listing adds it to its own stem's candidates and to no other stem's |
| Pairing.SingleStems | src/renderer/src/store.ts:319-320 | the stems kept are exactly the keys whose group has length one |
| Pairing.MakeJpegRawPhotos | src/renderer/src/store.ts:261-330 | the result is strictly sorted by prefix; a stem appears iff exactly one candidate exists on the jpeg side or on the raw side; each side holds the first candidate of its stem or nothing |
| Pairing.SurvivorsAreKept | src/renderer/src/store.ts:319-321 | the union of the single-candidate stems of both sides is exactly the set of stems kept by the pairing rule |
| Pairing.MakeJpegRawPhotosFrom | src/renderer/src/store.ts:265-284 | an unset directory lists nothing, so its side is absent from every item; otherwise the pairing of the two listings |
| Pairing.Listing | src/renderer/src/store.ts:265 | an unset or empty directory setting lists nothing; a set one lists its files |
| Pairing.PairingIsUnique | src/renderer/src/store.ts:319-327 | the pairing properties determine the result: two collections satisfying them for the same listings are equal |
| Pairing.PairedItemsHaveAFile | src/renderer/src/store.ts:319-327 | every item of a pairing carries a jpeg or a raw file |
| Pairing.SplitNameOfJoined | src/renderer/src/store.ts:268-271 | a name built as stem, dot and a dot-free extension splits back into the lower-cased stem and extension |
| Pairing.StemOfJoined | src/renderer/src/store.ts:268-280 | a file named stem, dot and a dot-free extension of the side is collected under the lower-cased stem |
| Pairing.AmbiguousPreviewsAreDropped | src/renderer/src/store.ts:319-321 | two previews of the same stem and no raw file: the stem is dropped |
| Pairing.DuplicatePreviewsKeptBesideSingleRaw | src/renderer/src/store.ts:319-327 | two previews of one stem beside a single raw file: the stem is kept and carries the first preview |
| Pairing.ExamplePreviewCandidates | src/renderer/src/store.ts:267-282 | files named `a.jpg` and `a.JPG` are both collected, in listing order, under stem `a` |
| Strings.Lower | src/renderer/src/store.ts:270-271 | lower-casing keeps the length and maps every character on its own |
| Strings.LastIndexOf | src/renderer/src/store.ts:268-271 | finds the last occurrence of a character, with none after it, or reports that there is none |
| Strings.LastSegment | src/renderer/src/store.ts:132 | the text after the last dot contains no dot, and a dotless name is its own last segment |
| Strings.Sort | src/renderer/src/store.ts:323-327 | sorting is a permutation of its input |
| Strings.SortMembers | src/renderer/src/store.ts:323-327 | sorting keeps exactly the elements of its input |
| Strings.SortSorted | src/renderer/src/store.ts:323-327 | the sorted result is ordered by JavaScript string order |
| Strings.Uniq | src/renderer/src/store.ts:321 | the union keeps each element once and exactly the elements of its input |
| Strings.StrictlySortedDistinct | src/renderer/src/store.ts:321-327 | strictly increasing prefixes are pairwise different |
| Strings.StrictlySortedUnique | src/renderer/src/store.ts:321-327 | two strictly sorted sequences with the same elements are equal |
| Strings.LexLessTransitive | src/renderer/src/store.ts:323-327 | the string order used for sorting is transitive |
| Strings.LexLessTotal | src/renderer/src/store.ts:323-327 | any two distinct strings are ordered one way or the other |
| PrototypeStore.MakeJpegRawPhotosFromHandles | src/store.ts:98-167 | the prototype's copy satisfies the same pairing properties; a null handle contributes no candidates on its side |
| PrototypeStore.Store.LoadUnsortedPhotos | src/store.ts:44-53 | the unsorted collection becomes the pairing of the listings of the two unsorted handles |
| PrototypeStore.Store.SelectedPhotoIndex | src/store.ts:67-70 | 0 while the field is null, otherwise the last value set |
| PrototypeStore.Store.SetSelectedPhotoIndex | src/store.ts:71-73 | after setting, the index reads back as the value set |
| PrototypeStore.Store.SelectedPhotoPrefix | src/store.ts:74-78 | the prefix of the item at the selected index, or "" when the index is outside the collection |
| PrototypeStore.PrefixAtNamesItem | src/store.ts:74-78 | the prefix at a position inside a pairing names a kept stem of the collection; outside it is "" |
| PrototypeStore.Store.SetUnsortedJpegDirectory | src/store.ts:22-25 | the setter stores the handle |
| PrototypeStore.Store.SetUnsortedRawDirectory | src/store.ts:27-30 | the setter stores the handle and changes no other field |
| PrototypeStore.Store.SetSortedJpegDirectory | src/store.ts:32-35 | the setter stores the handle and changes no other field |
| PrototypeStore.Store.SetSortedRawDirectory | src/store.ts:37-40 | the setter stores the handle and changes no other field |
| PrototypeStore.Store.constructor | src/store.ts:22-41 | all handles start unset, the collection empty and the index null, reading as 0 |
| RendererStore.Store.constructor | src/renderer/src/store.ts:39-59 | all directories start unset, both collections empty, the index null and no published fragment; both collections' prefixes strictly increase (`Valid`) |
| RendererStore.Store.SelectedPhotoIndex | src/renderer/src/store.ts:100-103 | 0 while the field is null, otherwise the last value set |
| RendererStore.Store.SetSelectedPhotoIndex | src/renderer/src/store.ts:104-106 | after setting, the index reads back as the value set |
| RendererStore.Store.SetUnsortedJpegDirectory | src/renderer/src/store.ts:39-43 | choosing an unsorted directory stores it and resets the index to 0 |
| RendererStore.Store.SetUnsortedRawDirectory | src/renderer/src/store.ts:45-49 | choosing an unsorted directory stores it and resets the index to 0 |
| RendererStore.Store.SetSortedJpegDirectory | src/renderer/src/store.ts:51-54 | choosing a sorted directory stores it and leaves the index alone |
| RendererStore.Store.SetSortedRawDirectory | src/renderer/src/store.ts:56-59 | choosing a sorted directory stores it and leaves the index alone |
| RendererStore.Store.SetAvailableLightboxPhotosFragment | src/renderer/src/store.ts:108-111 | the published fragment becomes the value given |
| RendererStore.Store.RefreshUnsortedPhotos | src/renderer/src/store.ts:63-76 | the unsorted collection becomes the pairing of the current unsorted listings, and the index returns to 0; `Valid` is kept |
| RendererStore.Store.RefreshSortedPhotos | src/renderer/src/store.ts:81-93 | the sorted collection becomes the pairing of the current sorted listings; `Valid` is kept |
| RendererStore.Store.SortedPhotos | src/renderer/src/store.ts:94-96 | the record has a key exactly for each prefix of the sorted collection |
| RendererStore.Store.SortedPhotosHoldsList | src/renderer/src/store.ts:94-96 | in a valid store every sorted item is found under its own prefix and every key names one item, so walking the list visits exactly the record's values (`Object.values` at line 176) |
| RendererStore.Store.CurrentWindowedImages | src/renderer/src/store.ts:114-157 | one display record per unsorted item |
| RendererStore.Store.CurrentPhotoSync | src/renderer/src/store.ts:160-191 | unavailable iff a directory is unset; synced iff available with nothing pending; the pending pairs are those of the sorted items behind their unsorted counterparts |
| RendererStore.Store.React | src/renderer/src/store.ts:195-254 | one reaction run, with the height the near requests carry and the one the background plan carries given separately: the plan handed to the background queue is the reaction's outcome, and the published fragment ends as the last publication, or unchanged when nothing is published |
| Scheduler.IndexOrZero | src/renderer/src/store.ts:102 | a null field reads as 0, a set one as its value |
| Scheduler.Range | src/renderer/src/store.ts:219-220 | `range(lo, hi)` has `hi - lo` elements, counting up from `lo` |
| Scheduler.Mirror | src/renderer/src/store.ts:218-221 | each element is followed by its negation, in order |
| Scheduler.MirrorAppend | src/renderer/src/store.ts:218-221 | mirroring maps a concatenation to the concatenation of the mirrors |
| Scheduler.AlternatingPlan | src/renderer/src/store.ts:216-222 | zero followed by the mirrored ranges visits 0, 1, -1, 2, -2, … up to the last radius |
| Scheduler.PlansShape | src/renderer/src/store.ts:216-251 | the near plan has 39 offsets and the far plan 99, both ordered 0, 1, -1, 2, -2, … nearest first; the near plan is a prefix of the far plan |
| Scheduler.MakeArgs | src/renderer/src/store.ts:202-211 | at most one argument per offset |
| Scheduler.MakeArgsExactly | src/renderer/src/store.ts:202-211 | the arguments are exactly those of the offsets whose index lies in the collection with a non-empty jpeg path, each carrying that item's prefix and path |
| Scheduler.MakeArgsAppend | src/renderer/src/store.ts:202-211 | the offset order is kept: a concatenation of plans gives the concatenation of their arguments |
| Scheduler.NearArgsPrefixOfFar | src/renderer/src/store.ts:216-251 | the requests loaded in the foreground are the first ones of the background plan |
| Scheduler.Prune | src/renderer/src/store.ts:224-229 | the working copy keeps exactly its keys that are prefixes of a near argument, with unchanged entries |
| Scheduler.PruneWorkingCopy | src/renderer/src/store.ts:213-229 | deleting key by key leaves exactly the pruned working copy |
| Scheduler.LoadWindow | src/renderer/src/store.ts:231-239 | the near loop leaves exactly the filled working copy and the intermediate publications that the gate and the 500 ms clock allow |
| Scheduler.RunReaction | src/renderer/src/store.ts:195-254 | one invocation publishes and hands to the background queue exactly what the reaction's outcome function says |
| Scheduler.ReactionStaysInWindow | src/renderer/src/store.ts:224-239 | every published fragment is keyed only by prefixes of the near window |
| Scheduler.StaleInvocationIsSilent | src/renderer/src/store.ts:200-244 | the background plan is handed over exactly when the last gate check holds; an invocation whose every check fails publishes nothing |
| Scheduler.NoGateNoPublication | src/renderer/src/store.ts:232-239 | when every one of the first n gate checks fails, the loop publishes nothing |
| Scheduler.FailedGateStepIsSilent | src/renderer/src/store.ts:232-239 | a loop step whose gate check fails, even after passing steps, leaves the working copy and the publications as they were |
| Scheduler.PassedGateStepFetches | src/renderer/src/store.ts:232-239 | a loop step whose gate check passes stores the fetched metadata under the argument's prefix and publishes the new working copy exactly when 500 ms have elapsed |
| Scheduler.NullFieldIsSilent | src/renderer/src/store.ts:200 | a field that reads null at every check never passes the gate, so nothing is published or precached |
| Scheduler.FilledContents | src/renderer/src/store.ts:231-239 | with every gate passing, each near prefix is filled with metadata fetched for an argument of that prefix, and every other key comes from the pruned copy |
| Scheduler.FilledCoversArgs | src/renderer/src/store.ts:224-239 | with every gate passing, the filled copy of a pruned working copy is keyed exactly by the arguments' prefixes, each entry fetched for an argument of that prefix |
| Scheduler.SteadyPositionFillsWindow | src/renderer/src/store.ts:231-242 | when the position holds still, the final publication has exactly the near prefixes as keys, each entry fetched for an argument of that prefix |
| View.ByPrefix | src/renderer/src/store.ts:174 | the record has a key exactly for each prefix, and each value is an item of the list filed under its own prefix (built the same way at line 95) |
| View.ByPrefixOfDistinct | src/renderer/src/store.ts:95 | with distinct prefixes, every item is found under its own prefix |
| View.SourceLabelOfPair | src/renderer/src/store.ts:132 | an item with both files is labelled with its jpeg name, `+` and the raw file's extension |
| View.DestinationLabelMarksCounterpart | src/renderer/src/store.ts:139-143 | for an item carrying a file, the label is empty iff there is no counterpart and opens with the heart iff there is one; a counterpart with a jpeg is labelled with the heart and `JPG` |
| View.PairedCounterpartsAreMarked | src/renderer/src/store.ts:137-143 | against a paired sorted collection, the label is empty exactly when the prefix is absent and opens with the heart exactly when it is present |
| View.ThreeItemScenario | src/renderer/src/store.ts:137-143 | of three items, only the one copied to the sorted side (as a jpeg) is labelled with the heart and `JPG` |
| View.WindowedImages | src/renderer/src/store.ts:123-151 | one display record per unsorted item |
| View.WindowedImagesPreferPublished | src/renderer/src/store.ts:125-149 | a published entry is shown when there is one; otherwise the selected item, when it has a preview, shows `getJpegMeta`'s answer for its path and the current height, and every other item the empty placeholder; each title is the item's label pair |
| View.PendingPairsExactly | src/renderer/src/store.ts:174-184 | a pair is pending iff its sorted item is listed, its prefix is in the unsorted record, and the unsorted item has a jpeg or raw file the sorted one lacks |
| View.PhotoSync | src/renderer/src/store.ts:160-191 | unavailable iff a directory is unset; synced iff available with nothing pending; pending iff available with pairs pending; the pairs are collected in sorted-list order |
| MetaServer.CacheKeyIgnoresWindowHeight | src/main/server.ts:31-33 | two requests share a key exactly when their paths are equal, whatever their heights |
| MetaServer.Extract | src/main/server.ts:74-118 | the result always has the request's path and file URL; a failed metadata read gives width and height 0 and no sources; at most two sources, the first the full-size URL with the dimensions, the second a JPEG data URL present iff the resize succeeded |
| MetaServer.PrecacheQueue | src/main/server.ts:144-154 | the queue has one more entry than the requests: a retain of their keys, then one prefetch per request |
| MetaServer.Retain | src/main/server.ts:49-54 | a key stays iff it was cached and is listed, with its entry unchanged |
| MetaServer.PrefetchInto | src/main/server.ts:55-64 | a prefetch leaves the cache holding its old keys plus the request's path |
| MetaServer.StepConsumesFront | src/main/server.ts:47-68 | a worker turn removes exactly the front request, changes nothing on an empty queue, and keeps the cache coherent |
| MetaServer.RetainEvicts | src/main/server.ts:49-54 | after a retain only listed keys remain, listed cached keys keep their entries, and nothing is extracted |
| MetaServer.PrefetchStep | src/main/server.ts:55-64 | a prefetch replaces the entry with one extraction iff the key is absent or was cached for another height; otherwise nothing changes |
| MetaServer.LookupCachesByPath | src/main/server.ts:156-168 | a cached key answers from its entry and changes nothing, for any height; an absent key gets exactly one new entry, tagged with the request, after one extraction |
| MetaServer.LookupIsIdempotent | src/main/server.ts:156-168 | asking twice extracts at most once and answers the same both times |
| MetaServer.LookupIgnoresWindowHeight | src/main/server.ts:156-168 | a lookup for another height answers from the entry made for the first one |
| MetaServer.PrefetchInvalidatesOnHeightChange | src/main/server.ts:55-64 | a prefetch for a height other than the one a lookup cached extracts again and replaces the entry (the lookup is at lines 156-168) |
| MetaServer.EvictionThenLookup | src/main/server.ts:49-54 | after a retain, looking up an evicted path extracts again, while a retained cached path is served from the cache (the lookup is at lines 156-168) |
| MetaServer.LastFor | src/main/server.ts:149-153 | the request chosen for a path is one of the requests and names that path |
| MetaServer.LastForIsLast | src/main/server.ts:149-153 | that request is at the last position naming the path |
| MetaServer.ApplyPrefetches | src/main/server.ts:55-64 | carrying out a series of prefetches leaves the old keys plus all their paths |
| MetaServer.ApplyPrefetchesLast | src/main/server.ts:55-64 | after the prefetches, each of their paths holds the entry of the last request for it |
| MetaServer.ApplyPrefetchesKept | src/main/server.ts:55-64 | entries for paths the prefetches do not name are left alone |
| MetaServer.RunPrefetches | src/main/server.ts:45-65 | the worker carries out a queue of prefetches one per turn and ends with an empty queue |
| MetaServer.RetainOfPlan | src/main/server.ts:49-54 | the first turn after a precache keeps only the plan's paths and leaves the prefetches queued (the precache is at lines 144-148) |
| MetaServer.PrecacheThenDrain | src/main/server.ts:45-70 | once the worker has drained a precache plan, the queue is empty and the cache holds exactly the plan's paths, each with the extraction of the last request for it (the precache is at lines 144-154) |
| MetaServer.Server.constructor | src/main/server.ts:39-44 | the server starts with an empty cache and queue, and every cached entry holds its own path's extraction (`Valid`) |
| MetaServer.Server.Precache | src/main/server.ts:144-154 | the previous queue is discarded and the new queue is the precache queue of the requests |
| MetaServer.Server.RetainOnlyKeys | src/main/server.ts:49-54 | deleting key by key leaves exactly the retained cache |
| MetaServer.Server.WorkerStep | src/main/server.ts:46-68 | one turn of the worker loop moves the state exactly as the transition function does, and keeps `Valid` |
| MetaServer.Server.GetJpegMeta | src/main/server.ts:156-168 | the answer and the new state are exactly those of the lookup function, and `Valid` is kept |
| MetaServer.FilesToDelete | src/main/server.ts:134-137 | a file is deleted iff it is listed and its lower-cased name starts with the lower-cased prefix and a dot |
| MetaServer.FilesOfStem | src/main/server.ts:134-137 | a file is selected iff it is listed and its name splits into exactly the prefix's stem |
| MetaServer.DeleteReachesLongerStem | src/main/server.ts:134-137 | a file of the longer stem `p.x` is deleted along with item `p` by the filter as written, and spared by the corrected one |
| MetaServer.FilesOfStemWithinFilter | src/main/server.ts:134-137 | every file of the item is also caught by the filter as written |
| Navigation.PageUp | src/renderer/src/App.tsx:80-84 | never negative, never past the current index, exactly 100 back when possible, else 0 |
| Navigation.PageDown | src/renderer/src/App.tsx:86-93 | within the collection (0 when it is empty), exactly 100 on when possible, else the last item |
| Navigation.LastMarkedBelow | src/renderer/src/App.tsx:95-99 | the greatest index below the bound whose prefix has a counterpart, with none between; none iff no such index exists |
| Navigation.FirstMarkedAbove | src/renderer/src/App.tsx:105-108 | the smallest index above the bound whose prefix has a counterpart, with none between; none iff no such index exists |
| Navigation.UpDownJumpToNearestMarked | src/renderer/src/App.tsx:95-112 | up stays put iff nothing before is marked, else moves to the nearest marked item before; down likewise after |
| Navigation.Left | src/App.tsx:40-42 | never negative, exactly one back from 1 on, else 0 |
| Navigation.Right | src/App.tsx:43-48 | one on while that stays at or before the last position (0 for an empty collection), and otherwise exactly that last position |
| Navigation.LeftRightStayInside | src/App.tsx:40-48 | from inside the collection, left and right stay inside it |
| Navigation.SpaceAndDeleteExclusive | src/renderer/src/App.tsx:52-78 | space copies a side iff the current item has it, the sorted directory is set and the counterpart lacks it; delete removes the jpeg iff the prefix is non-empty, the directory is set and the counterpart has a jpeg, and the raw files iff additionally the current item has a raw; the two never act on the same side |
| Navigation.SyncCopiesOnlyMissingSides | src/renderer/src/App.tsx:218-225 | every copy made by the sync button takes a side a pending pair's unsorted item has and its sorted item lacks, into that side's directory |
| Navigation.PendingPairsGetCopied | src/renderer/src/App.tsx:218-225 | with both sorted directories set, every pending pair gets at least one copy |
| ShellEx.DoubleQuotes | src/main/shellex.ts:5 | doubling the quotes adds one character per quote |
| ShellEx.EscapedChar | src/main/shellex.ts:5 | a quote becomes two quotes and any other character stays as it is |
| ShellEx.EscapeShellArg | src/main/shellex.ts:5 | the result opens and closes with a double quote and is the input's length plus its quotes plus 2 |
| ShellEx.UnescapeShellArg | src/main/shellex.ts:5 | stripping the outer quotes and collapsing doubled quotes recovers the argument and what follows it |
| ShellEx.ReadDoubledBody | src/main/shellex.ts:5 | reading a doubled body up to its closing quote yields the argument and the remaining text |
| ShellEx.EscapeShellArgInjective | src/main/shellex.ts:5 | two arguments with the same escape are equal |
| ShellEx.WithoutSwitches | src/main/shellex.ts:8-10 | the filtered command line is no longer than argv |
| ShellEx.WithoutSwitchesMembers | src/main/shellex.ts:8-10 | what is kept is the current directory in place of a `.`, or an element of argv that is neither a switch nor `.` |
| ShellEx.WithoutSwitchesOne | src/main/shellex.ts:8-10 | a single element is dropped exactly when it starts with `--`, and is otherwise resolved |
| ShellEx.WithoutSwitchesAppend | src/main/shellex.ts:8-10 | the filter keeps the order of what it keeps |
| ShellEx.CommandStringRoundTrip | src/main/shellex.ts:11 | the escaped arguments joined by single spaces read back as exactly those arguments |
| ShellEx.DirectorySwitches | src/main/shellex.ts:29-46 | four entries in fixed order with their switches and captions, each key being its position, `_` and its switch |
| ShellEx.DirectorySwitchKeysDistinct | src/main/shellex.ts:29-46 | the four keys are pairwise distinct |

## Left out

- Electron, IPC and the preload bridge are left out because they are plumbing. The renderer's
  API calls become function parameters.
- File-system access is left out: recursive listing, `cp` and `rm`. Listings are parameters,
  and only the name filter of `deleteFromDirectory` is modelled. The copies and deletions the key
  bindings trigger are modelled as the decisions and the `Copy` records they produce. Files are
  assumed not to change between listings.
- Image decoding and resizing (sharp, base64) are the parameter `Imaging`. The model does not
  cover the timing log lines of `extractJpegMeta`.
- The cache stores the extraction's result rather than its promise. A concurrent caller that
  awaits a pending extraction is therefore not modelled. The same goes for any other
  interleaving of the worker loop with `getJpegMeta` or the reaction: the model covers single
  sequential steps.
- The worker's 10 ms and 50 ms sleeps are not modelled. The 500 ms wall clock of the reaction
  is the oracle `elapsed`.
- `getCurrentWindowHeight` rounds `window.innerHeight` with floating-point division. The model
  takes the window height as an integer parameter.
- Scheduler.ReactionOutcome: `makeArgs` reads the height once per argument. The model reads it
  once per `makeArgs` call, as `nearHeight` for the near window and `farHeight` for the background
  plan. A resize in the middle of building one of the two lists is not modelled.
- MobX reactivity, `promisedComputed` and React rendering are left out. A reaction run is an
  explicit call (`RendererStore.Store.React`) on a snapshot of the store.
- The hotkey binding itself, the Lightbox props, the menus and the prototype's
  `selectedPhotoUrlAsync` (which reads a file as a data URL) are UI glue.
- Registry edits, `execSync` and `elevate` are operating-system side effects. The values of the
  CLI switches are a parameter, because src/main/cli is not part of this model.
- `toLowerCase` and `toUpperCase` are modelled on the ASCII letters only.
- JavaScript's string `<` is modelled as ordering by character. This equals UTF-16 code-unit
  order for characters of the Basic Multilingual Plane.
- Record keys that collide with `Object.prototype` members, such as `constructor`, are not
  modelled. In the pairing records such a key would be found already present, and
  integer-like keys would change `Object.values` order. `View.PhotoSync` walks the sorted items
  in collection order; `RendererStore.Store.SortedPhotosHoldsList` shows that this visits the
  record's values once each, though not that it matches `Object.values` order for such keys.
- ShellEx.ReadDoubledBody: stated only when the text after the closing quote does not open with a quote. A quote right after a quote reads as a doubled one, so the reader needs a separator. `ShellEx.UnescapeShellArg` shares this condition.
- View.DestinationLabelMarksCounterpart: the `JPG` clause is stated in one direction only, because a raw extension spelled `jpg` would also produce that label.
- View.WindowedImages and RendererStore.Store.CurrentWindowedImages: their own contracts state only the length; what each record holds is stated by `View.WindowedImagesPreferPublished` and the label lemmas.
- ShellEx.DoubleQuotes and ShellEx.WithoutSwitches: their own contracts state only lengths; what they keep is stated by the read-back and member lemmas listed above.

## Findings

| source | as written | input that shows it | evidently intended | confidence | as-written member | corrected member |
|---|---|---|---|---|---|---|
| src/main/server.ts:134-137 | `deleteFromDirectory` removes every file whose lower-cased name starts with the lower-cased prefix followed by a dot | deleting item `a` from a directory that also holds `a.b.jpg`, a file of the separate item `a.b`: that file is removed too | remove only the files of the item itself, those whose name splits at its last dot into the item's stem | medium, not executed | MetaServer.FilesToDelete, MetaServer.DeleteReachesLongerStem | MetaServer.FilesOfStem |
