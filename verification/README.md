# LuminanceHDR: pfs channel collection and HDR input-loading bookkeeping

This project models two sequential cores of Luminance HDR and proves properties about them.

1. **pfs channels** (`src/Libpfs/channel.h`). A frame keeps its channels in a `ChannelMap`.
   That is a `std::map` from channel name to channel, ordered by `string_cmp`.
   `ChannelIteratorImpl` is a cursor over that map.
   The `Channel` interface fixes the raw-buffer layout:
   - `width*height` samples in row-major order;
   - element (x, y) is at `x + y*width`;
   - width means cols and height means rows.

   Modules:
   - `StringCmp` (`string_cmp.dfy`) has the key order.
   - `PfsChannel` (`channel.dfy`) has a channel and its buffer layout.
   - `PfsChannelMap` (`channel_map.dfy`) has the map and the iterator.

   The map is a sequence of (name, channel) entries whose keys strictly increase. The iterator is an index into that sequence.

2. **HdrCreationManager loading** (`src/HdrCreation/HdrCreationManager.cpp`). This is the deterministic state machine behind the loading of input images. It keeps:
   - parallel per-file lists;
   - the `runningThreads` and `processedFiles` counters;
   - the `inputType` mode (unknown, then LDR or MDR);
   - the sticky `loadingError` flag;
   - the image-size check;
   - the rule that starts the next unstarted files up to the thread limit;
   - index-aligned removal.

   Module `HdrCreationManager` (`hdr_manager.dfy`) holds the state record and the transition functions. Module `HdrLoadingProperties` (`hdr_properties.dfy`) holds the invariant and the lemmas.

   The model abstracts the parts of the class that reach outside it:
   - Images are reduced to `Option<Size>`; `None` is a NULL slot.
   - Starting a loader thread and emitting a Qt signal become `Event`s that a transition returns.
   - The thread limit `getNumThreads()` is a parameter.
   - `setFileList` is modelled for any offset `m_shift` (`SetFileListAt`). `SetFileListAsWritten` fixes it at 0, the only value HdrCreationManager.cpp assigns it (the class header `HdrCreationManager.h` is not part of this model; see "## Findings"), and `SetFileList` takes the number of files already listed (see "## Findings"). The invariant and reachability results cover both readings. The lemmas about rows after `setFileList` are stated for `SetFileList`.

`Wrappers` (`wrappers.dfy`) holds the `Option` type that stands for nullable pointers.

## Model

| member | source | states |
|---|---|---|
| StringCmp.Compare | src/Libpfs/channel.h:130-136 | The sign of `s1.compare(s2)` is 0 exactly when the strings are equal. |
| StringCmp.CompareAntisymmetric | src/Libpfs/channel.h:130-136 | Swapping the two strings negates the sign of `compare`. |
| StringCmp.LessIsLexLess | src/Libpfs/channel.h:130-136 | `string_cmp` holds iff s1 is a proper prefix of s2, or s1 has the smaller character at the first position where they differ. Both directions are proved. |
| StringCmp.LessIrreflexive | src/Libpfs/channel.h:130-138 | No name sorts before itself. |
| StringCmp.LessAsymmetric | src/Libpfs/channel.h:130-138 | Two names are never each less than the other. |
| StringCmp.LessConnected | src/Libpfs/channel.h:130-138 | Any two distinct names are ordered one way or the other. |
| StringCmp.LessTransitive | src/Libpfs/channel.h:130-138 | `string_cmp` is transitive, so it is a strict total order that the map can use. |
| PfsChannel.NewChannel | src/Libpfs/channel.h:72-79 | A new channel of size width x height has a raw buffer of exactly width*height samples. `getWidth`/`getHeight`/`getName` return the constructor's arguments. |
| PfsChannel.RawIndexInBuffer | src/Libpfs/channel.h:71-79 | For every in-range (x, y), the index `x + y*width` lies inside the width*height buffer. |
| PfsChannel.CoordOfRawIndex | src/Libpfs/channel.h:71-79 | The column and row read back from `x + y*width` are (x, y). |
| PfsChannel.RawIndexOfCoord | src/Libpfs/channel.h:71-79 | Every buffer index is `x + y*width` for an in-range element (x, y), namely (i % width, i / width), and for no other in-range element. |
| PfsChannel.RawIndexInjective | src/Libpfs/channel.h:71-79 | Two different in-range elements never share a buffer slot. |
| PfsChannel.Get | src/Libpfs/channel.h:71-79 | Reading element (x, y) reads the raw buffer at `x + y*width`, which is in bounds. |
| PfsChannel.Set | src/Libpfs/channel.h:71-81 | A write through the raw buffer keeps the buffer size, the dimensions, the name and the tags. |
| PfsChannel.GetAfterSet | src/Libpfs/channel.h:71-81 | After writing v at (x, y), element (x, y) reads v and every other element reads what it read before. |
| PfsChannelMap.KeysUnique | src/Libpfs/channel.h:130-138 | The keys of a valid map are pairwise distinct. |
| PfsChannelMap.Find | src/Libpfs/channel.h:138 | `find` returns NULL iff the name is not a key. Otherwise it returns the channel stored under that name. |
| PfsChannelMap.UniqueLookup | src/Libpfs/channel.h:130-138 | Looking up the key of entry i returns entry i's channel. |
| PfsChannelMap.Rank | src/Libpfs/channel.h:130-138 | The insertion point of a name splits the keys into those below it and those not below it. |
| PfsChannelMap.Insert | src/Libpfs/channel.h:138 | Inserting a new name keeps the keys strictly ordered and grows the map by one. The name then finds the new channel and every other name finds what it found before. |
| PfsChannelMap.Remove | src/Libpfs/channel.h:138 | Erasing keeps the keys ordered and shrinks the map by one iff the name was present. The name then finds nothing and every other name finds what it found before. |
| PfsChannelMap.Reset | src/Libpfs/channel.h:172-175 | After `reset()`, `hasNext()` holds iff the map is non-empty, and the cursor is at the least key. |
| PfsChannelMap.NewIterator | src/Libpfs/channel.h:167-170 | A fresh iterator is exhausted iff the map is empty. Its first key is below every other key. |
| PfsChannelMap.GetNext | src/Libpfs/channel.h:177-181 | On an exhausted iterator `getNext()` returns NULL and does not move. Otherwise it returns the channel at the cursor and advances the cursor by exactly one. |
| PfsChannelMap.Drain | src/Libpfs/channel.h:177-186 | Calling `getNext()` until `hasNext()` fails yields the channels from the cursor to the end in map order and leaves the iterator exhausted. |
| PfsChannelMap.DrainYieldsAllInOrder | src/Libpfs/channel.h:164-186 | Draining a fresh iterator over n channels yields exactly n non-null channels. The i-th is the one stored under the i-th smallest name, so each comes once, in ascending `string_cmp` order. Afterwards `hasNext()` is false and `getNext()` returns NULL without moving. |
| PfsChannelMap.DrainOfTwoInsertsIsNameOrdered | src/Libpfs/channel.h:138-186 | Two channels inserted into an empty map, in either order, are drained in the order of their names. |
| PfsChannelMap.ResetRedrains | src/Libpfs/channel.h:172-175 | After a drain, `reset()` and a second drain yield the same channels as the first drain. |
| HdrCreationManager.Init | src/HdrCreation/HdrCreationManager.cpp:282-288 | The constructed manager has no files, an unknown input type, and satisfies the state invariant. |
| HdrCreationManager.SetFileListAt | src/HdrCreation/HdrCreationManager.cpp:295-323 | For any `m_shift`, `setFileList` appends l to `fileList`. Exposures in [shift, shift+\|l\|) become -1. Other exposures below the old length are kept and the rest are 0.0. Old temp names are kept and new ones are "". `processedFiles` becomes the shift, `runningThreads` 0 and `loadingError` false. `startedProcessing` gains \|l\| false flags and every payload list gains \|l\| NULL slots. `filesLackingExif`, the MDR size and the mode are not reset. |
| HdrCreationManager.SetFileListAsWritten | src/HdrCreation/HdrCreationManager.cpp:295-323 | With `m_shift` = 0, since no statement in HdrCreationManager.cpp changes it after construction: l is appended and `processedFiles` becomes 0. Exposures at indices 0..\|l\|-1 become -1, whichever files those are. Later old files keep their exposure and later new files get 0.0. The counters are reset, the error is cleared and one false started flag is added per new file. |
| HdrCreationManager.SetFileList | src/HdrCreation/HdrCreationManager.cpp:295-323 | Corrected reading, with the shift equal to the old file count. `fileList` becomes old ++ l. Old exposures and temp names are kept. Each new file gets exposure -1, temp name "" and started false. The counters are reset and the error is cleared. |
| HdrCreationManager.FirstNotStarted | src/HdrCreation/HdrCreationManager.cpp:327-337 | Returns none iff every file has started. Otherwise it returns the least unstarted index. |
| HdrCreationManager.StartFiles | src/HdrCreation/HdrCreationManager.cpp:358-374 | The start loop starts min(limit - running, remaining) files, or none when running >= limit. They are the consecutive indices from `next` on, each marked started, with one `Started` event each in ascending order. |
| HdrCreationManager.LoadInputFiles | src/HdrCreation/HdrCreationManager.cpp:325-376 | `loadInputFiles` changes nothing except the started flags and `runningThreads`. |
| HdrCreationManager.FileName | src/HdrCreation/HdrCreationManager.cpp:477 | `QFileInfo::fileName()` is the suffix of the path after its last '/'. That suffix contains no '/'. |
| HdrCreationManager.NewResult | src/HdrCreation/HdrCreationManager.cpp:462-486 | `newResult` keeps the per-file lists aligned and emits `fileLoaded(index, fileList[index], expotime)` and then `processed()`. |
| HdrCreationManager.LoadFailed | src/HdrCreation/HdrCreationManager.cpp:378-383 | `loadFailed` sets `loadingError`, changes nothing else and emits the error with its message. |
| HdrCreationManager.LdrsHaveSameSize | src/HdrCreation/HdrCreationManager.cpp:488-503 | True iff every non-null stored LDR image is exactly w x h. |
| HdrCreationManager.MdrsHaveSameSize | src/HdrCreation/HdrCreationManager.cpp:505-526 | True iff at every index where R, G and B are all stored, all three planes are exactly w x h. |
| HdrCreationManager.Resize | src/HdrCreation/HdrCreationManager.cpp:303-304 | `QVector::resize(n)` keeps the first n old entries and pads with the default value. |
| HdrCreationManager.RemoveAt | src/HdrCreation/HdrCreationManager.cpp:923-926 | `removeAt(i)` leaves one element fewer. Elements before i stay put and elements after i move down by one. |
| HdrLoadingProperties.StartedCount | src/HdrCreation/HdrCreationManager.cpp:327-337 | Started flags of the form true...true false...false are true exactly below the returned count. |
| HdrLoadingProperties.StartedCountIs | src/HdrCreation/HdrCreationManager.cpp:327-337 | A flag list that is true exactly below q has started count q. |
| HdrLoadingProperties.SetFileListPreservesWf | src/HdrCreation/HdrCreationManager.cpp:295-323 | The corrected `setFileList` (shift = old file count) keeps the state invariant: aligned lists, started flags as a prefix, payload lists long enough. |
| HdrLoadingProperties.SetFileListAsWrittenPreservesWf | src/HdrCreation/HdrCreationManager.cpp:295-323 | `setFileList` with `m_shift` = 0 keeps the same state invariant. |
| HdrLoadingProperties.StartFilesFromCount | src/HdrCreation/HdrCreationManager.cpp:325-376 | From a state with p files started, `loadInputFiles` starts some k >= 0 files, namely files p..p+k-1. After it, the first p+k files are started and the rest are not. |
| HdrLoadingProperties.LoadInputFilesPreservesWf | src/HdrCreation/HdrCreationManager.cpp:325-376 | `loadInputFiles` keeps the state invariant. |
| HdrLoadingProperties.LdrReadyPreservesWf | src/HdrCreation/HdrCreationManager.cpp:426-460 | `ldrReady` keeps the state invariant on every path. |
| HdrLoadingProperties.MdrReadyPreservesWf | src/HdrCreation/HdrCreationManager.cpp:385-424 | `mdrReady` keeps the state invariant on every path. |
| HdrLoadingProperties.RemovePreservesWf | src/HdrCreation/HdrCreationManager.cpp:888-927 | `remove` keeps the state invariant. |
| HdrLoadingProperties.ApplyPreservesWf | src/HdrCreation/HdrCreationManager.cpp:295-527 | Every loading operation keeps the state invariant, with `setFileList` taken in both readings: shift 0 and shift = old file count. |
| HdrLoadingProperties.Run | src/HdrCreation/HdrCreationManager.cpp:295-527 | Any sequence of operations leads from an invariant state to an invariant state. The sequence may mix both readings of `setFileList`. |
| HdrLoadingProperties.ReachableStatesAreWf | src/HdrCreation/HdrCreationManager.cpp:282-288 | Every state reachable from the constructor satisfies the invariant, under either reading of `setFileList`. |
| HdrLoadingProperties.SetFileListRows | src/HdrCreation/HdrCreationManager.cpp:295-323 | Corrected `setFileList` (shift = old file count): old files keep their rows. The i-th new file has the row (l[i], -1, "", not started). Every payload list gains one NULL slot per new file. |
| HdrLoadingProperties.SetFileListAsWrittenOnEmptyList | src/HdrCreation/HdrCreationManager.cpp:295-323 | On an empty file list, the code as written and the corrected reading agree. |
| HdrLoadingProperties.SetFileListAsWrittenAgreesIffEmpty | src/HdrCreation/HdrCreationManager.cpp:297-310 | For every state, the shift-0 reading and the corrected reading give the same result iff the file list was empty before the call. |
| HdrLoadingProperties.SetFileListAsWrittenMisplacesDefaults | src/HdrCreation/HdrCreationManager.cpp:303-310 | For every non-empty list and non-empty l, the shift-0 reading leaves the last new file at 0.0 and sets the first old file to -1. The corrected reading gives the last new file -1 and keeps the first file's exposure. |
| HdrLoadingProperties.SetFileListAsWrittenOverwritesOldExposure | src/HdrCreation/HdrCreationManager.cpp:297-310 | Counterexample: after one file is loaded with exposure 2.0, adding a second file as written gives exposures [-1, 0] and 0 processed files. The corrected reading gives [2.0, -1] and 1. |
| HdrLoadingProperties.LoadStartsFirstUnstartedInOrder | src/HdrCreation/HdrCreationManager.cpp:327-374 | When some file is unstarted, loaders start for consecutive files in ascending order from the first unstarted one. Each was unstarted before, and exactly those files become started. |
| HdrLoadingProperties.LoadRespectsThreadLimit | src/HdrCreation/HdrCreationManager.cpp:358-374 | `runningThreads` never decreases and is not raised above the limit. The loop stops only at the limit or when every file has started. The increase equals the number of files newly started. |
| HdrLoadingProperties.LoadWhenAllStarted | src/HdrCreation/HdrCreationManager.cpp:341-354 | Once all files have started, nothing changes and nothing starts. Completion is reported iff `processedFiles == fileList.size()`. `checkEVvalues` runs iff, in addition, no file lacks EXIF data. |
| HdrLoadingProperties.FinishedOnlyWhenAllProcessed | src/HdrCreation/HdrCreationManager.cpp:341-354 | `finishedLoadingInputFiles` is emitted only when every file has started and has been processed. |
| HdrLoadingProperties.FirstResultFixesMode | src/HdrCreation/HdrCreationManager.cpp:395-440 | With the mode unknown and no error, `ldrReady` sets the mode to LDR and `mdrReady` sets it to MDR. |
| HdrLoadingProperties.MixedInputIsAnError | src/HdrCreation/HdrCreationManager.cpp:395-439 | A result of the other kind sets `loadingError`, emits the mixing error and changes nothing else; the mode stays. |
| HdrLoadingProperties.ErrorDropsResults | src/HdrCreation/HdrCreationManager.cpp:387-433 | After a loading error, `ldrReady`/`mdrReady` leave the state unchanged and emit only `processed()`. |
| HdrLoadingProperties.ModeAndErrorAreSticky | src/HdrCreation/HdrCreationManager.cpp:295-527 | Once the mode is LDR or MDR, no operation changes it. Only `setFileList`, in either reading, clears `loadingError`. |
| HdrLoadingProperties.LdrStoredIffSameSize | src/HdrCreation/HdrCreationManager.cpp:441-449 | An LDR image is rejected with an error iff some stored LDR image has a different size. On rejection the whole step is: the mode becomes LDR, the error flag is set, an invalid-size error is emitted, and nothing else changes. Otherwise slot `index` gets the image, and its anti-ghosting mask slot too unless run from the command line. |
| HdrLoadingProperties.MdrStoredIffSameSize | src/HdrCreation/HdrCreationManager.cpp:402-419 | An MDR frame is rejected iff some fully stored frame's planes differ from its R plane's size. On rejection the whole step is: the mode becomes MDR, the error flag is set, an invalid-size error is emitted, and nothing else changes. Otherwise slot `index` of R, G and B gets the frame's planes, the MDR size becomes the frame's, and unless run from the command line the preview and mask slots `index` are filled. |
| HdrLoadingProperties.NewResultUpdatesOneRow | src/HdrCreation/HdrCreationManager.cpp:462-475 | `runningThreads` goes down by one and `processedFiles` up by one. Only row `index` changes: its exposure becomes `expotime`, and its temp name becomes `newfname` only when that differs from the file name. Apart from these and `filesLackingExif`, every field is unchanged. |
| HdrLoadingProperties.NewResultListsMissingExposure | src/HdrCreation/HdrCreationManager.cpp:477-482 | The code appends exactly one `<li>name</li>` entry to `filesLackingExif` when the stored exposure is -1, and none otherwise. Earlier entries are kept. |
| HdrLoadingProperties.RemoveDropsOneRow | src/HdrCreation/HdrCreationManager.cpp:888-927 | `remove(index)` deletes exactly row `index`, and the other rows keep their order. The current mode's payload lists lose the same slot and the other payload lists are untouched. Only in MDR mode is the converted file deleted. `filesLackingExif`, the error flag and the MDR size are unchanged, so the removed file's missing-EXIF entry stays. |

## Left out

- The colour and exposure arithmetic is left out because it is floating-point maths: `rgb2hsl`, `hsl2rgb`, `averageLightness`, `blend`, `doAntiGhosting`, `checkEVvalues`, `setEV`.
- HdrCreationManager.LoadInputFiles: when loading completes with no file lacking EXIF data, the model emits `EvValuesChecked` where the code calls `checkEVvalues`. The model does not apply that function's rescaling of `expotimes`.
- Thread objects and the Qt `connect` wiring are left out. A started loader is the `Started(index, file)` event, and its later outcome is a separate `LdrReady`, `MdrReady` or `LoadFailed` call.
- Alignment with `align_image_stack` and MTB is left out: `align_with_ais`, `ais_finished`, `readData`, `removeTempFiles`. So are saving (`saveLDRs`, `saveMDRs`), TIFF reading and writing, and EXIF copying. All of these are external processes or file I/O.
- `cropLDR`, `cropMDR`, `cropAgMasks`, `applyShiftsToImageStack`, `applyShiftsToMdrImageStack` and `makeSureLDRsHaveAlpha` are left out. They wrap image copying and shifting code that is not part of this model.
- `clearlists`, `reset`, the destructor and memory ownership (`qDeleteAll`, `delete`) are left out. The model has no pointers to free.
- `fromHDRPFStoQImage` is not part of this model. Its preview image is recorded only by its size, which the model takes to be the R plane's size.
- The bodies of `ChannelImpl`, `TagContainer`, `Array2DImpl` and `SelfDestructPtr` are not part of this model. Samples and tag containers are opaque types, and no tag semantics or bounds checking is assumed. A new channel's initial samples are not fixed by the interface, so the caller supplies a fill value.
- PfsChannelMap.Insert: inserting a name that is already present is excluded by a precondition, because the code does not fix that case.
- Changing a map while an iterator walks it is undefined in the code. Every iterator operation therefore takes the same, unchanged map.
- HdrCreationManager.Init: the constructor leaves `runningThreads`, `processedFiles`, `loadingError` and the MDR size uninitialised. The model starts them at 0 and false; `setFileList` sets the counters and the flag anyway.
- Integers are unbounded. The counters are C++ `int`s that never get near overflow here. Exposure times are reals compared exactly with -1, so float rounding and NaN are not modelled.
- `string_cmp` compares Dafny characters by code point. This stands for `std::char_traits<char>`, which compares bytes as unsigned values.
- `src/Projection/ProjectionsDialog.cpp` (GUI slots) and `src/ToneMappingDialog/threadManager.h` (a dialog declaration) are left out.

## Findings

| source | as written | input that shows it | evidently intended | confidence | as-written member | corrected member |
|---|---|---|---|---|---|---|
| src/HdrCreation/HdrCreationManager.cpp:297-310 | No statement in HdrCreationManager.cpp changes `m_shift` after the constructor sets it to 0 (and `reset()` sets it to 0 again); the class header `HdrCreationManager.h` is not part of this model. With `m_shift` = 0, `setFileList` writes -1 into `expotimes[0..\|l\|-1]` and sets `processedFiles` to 0. | A list holding one loaded file with exposure 2.0, then `setFileList(["b.tif"])`: the exposures become [-1, 0] and the processed count becomes 0. | The offset is the old file count. The new files get -1, old exposures are kept, and the files already listed stay counted as processed. | low, not executed | HdrLoadingProperties.SetFileListAsWrittenOverwritesOldExposure | HdrCreationManager.SetFileList |
