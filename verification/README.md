# Form framework verification

A Dafny 4.11 model of the parts of the form framework (`ability_form_fwk`) where a
mistake would be hard to see by reading one function, and proofs about them. Verify the
whole project with `dafny verify dfyconfig.toml`.

| file | what it models |
|---|---|
| `JsonValues.dfy` | JSON values, the RFC 8259 grammar as concrete syntax trees, the compact printer |
| `JsonParser.dfy` | a reference pushdown parser standing for `nlohmann::json::parse` |
| `JsonDepth.dfy` | the depth guard `IsJsonDepthSafe` / `SafeJsonParse`, and its relation to the parser's stack |
| `JsonGrammar.dfy` | the reference parser, and with it the guard, measured against the grammar |
| `SortedMaps.dfy` | `std::map<std::string, V>` as strictly ascending lists |
| `Ipc.dfy` | descriptors, shared memory, mappings and parcels; every call may fail |
| `SharedMemory.dfy` | the ashmem writers and readers of both parcelables |
| `ProviderCodec.dfy`, `FormProviderData.dfy` | `FormProviderData`: its wire form, and the object with its images and merged JSON |
| `LostWrites.dfy`, `LostInfoWrites.dfy` | what is on the wire, and what a receiver makes of it, when writes nobody checks are lost |
| `JsInfoCodec.dfy`, `FormJsInfo.dfy` | `FormJsInfo` around it, and the vector `ReloadForm` sends |
| `EventBuilder.dfy` | `FormHiSysEventBuilder`, an arena of buffers its parameters point into |
| `FormWant.dfy`, `WantConcurrency.dfy` | `FormWant`: parameter maps, and its locked operations as interleaved steps |
| `DumpStrings.dfy` | dump texts cut into chunks by the service and put together by the caller |
| `ProfileReader.dfy` | typed field reads out of a JSON profile with a sticky error |

How to read the contracts:

* A parcel is a sequence of typed tokens and a read cursor. A read past the end yields the
  default value. What a read makes of a value of another type, and where it leaves the cursor,
  also in the middle of a value, depends on the byte layout: it is a parameter, `Misread`, of
  every function that decodes and of every parcel. A lemma about decoding holds for all of them
  unless it says otherwise. A string is a sequence of bytes, one `char` per byte; `Str8ToStr16`
  and `Str16ToStr8` are taken as inverse to each other.
* Every system call, parcel write, secure copy and allocation chooses freely to fail. Such a
  failure raises a ghost flag, `faulted`. What holds on every path (release of descriptors and
  mappings, unchanged objects after a failure, lengths, validity) is promised without looking
  at the flag; what needs a system that works is promised under `!faulted`, and there both
  directions are stated: an operation succeeds if and only if its data allow it.
* The methods update objects and parcels as the source does. The functions beside them
  (`EncData`, `DecData`, `EncInfo`, `DecInfo`, ...) say what they leave on the wire, and the
  lemmas are about these functions, for all values and any bytes that follow.

What the proofs bring to light about the code:

* Only some of the writes in `Marshalling` are checked. After a run that reports success, the
  wire form is complete if and only if nothing failed. A loss is harmless, whatever misread bytes
  yield, only if what is missing is a zero at the very end of the parcel (`Harmless`,
  `WireRoundTrip`); in `FormJsInfo` if there are no names and their vectors are missing at the
  end, and with them possibly an inner image section for which the outer one can stand
  (`InfoHarmless`, `WireInfoRoundTrip`). If the image state is lost, an object in state
  ADDED is certain to arrive changed and unnoticed unless it has exactly one raw image
  (`LostStateUnnoticed`, with an example in `LostStateGoesUnnoticed`). A lost vector of package
  names is never an error; at the end of the parcel the map arrives empty
  (`LostNamesGoUnnoticed`).
* Raw images that nobody converts reach the receiver's provider data on the first hop and its
  outer map on the second, unless there are more than 128: then they vanish without an error
  (`UnconvertedImagesTakeTwoHops`).
* The length written beside each raw image is the size of a C++ pair, the same for all images;
  the receiver stores it as the image's length (`ImagesRoundTrip`), so the records agree only if
  every image happens to have that length (`LengthsSurviveByChance`).
* `GetStringInfo` returns `false`, which is `ERR_OK`, when the vector cannot be read; its caller
  is told success and has nothing (`SilentExactlyWhen`). The service does not check the write of
  the status; only for a reply that lacks the status alone does it depend on the byte layout
  whether the caller gains the whole text or nothing (`WholeOrNothingExactlyWhen`).
* Extraction skips null host parameters while merging copies them, so the two agree only under
  the exact condition of `ExtractIsMergeOfHostKeys`.
* A text whose length does not fit 32 bits arrives whole if the wrapped length is at most 32 KiB,
  is cut without an error if it is above that and within the reader's limit, and is refused above
  the limit (`TextRoundTrip`). A dump that was cut is never read as the value it was printed from
  (`CutDumpNeverParsesBack`); form data has no such protection (`InfoRoundTrip`).
* A count of more than 128 shared images is announced without entries. If it wraps round to a
  number from 1 to 128, the reader takes the package names for entries; this is the only thing
  besides unreadable provider data that can spoil a whole `FormJsInfo` (`InfoArrivesExactlyWhen`).

## Model

| member | source | states |
|---|---|---|
| JsonDepth.UpdateBracketDepth | common/src/json_util_form.cpp:30-41 | '{' and '[' raise the depth by one, '}' and ']' lower it, also below zero, and no other byte changes it; from a non-negative depth failure is reported exactly when it went below |
| JsonDepth.IsJsonDepthSafe | common/src/json_util_form.cpp:49-78 | the loop with its three registers and four exits accepts exactly the texts whose scan never leaves 0..128, ends at depth 0 and outside a string |
| JsonDepth.GuardIsBalance | common/src/json_util_form.cpp:49-78 | on any bytes at all the guard accepts exactly the texts whose string literals are closed and whose brackets outside of them balance without ever going below 0 or above 128 |
| JsonDepth.SafeJsonParse | common/src/json_util_form.cpp:80-90 | the result is the parser's value exactly when the parser accepts with at most 128 containers ever open; it is thrown exactly if exceptions are allowed, the text is not empty, the guard lets it through and the parser rejects it; else discarded |
| JsonDepth.StepInStep | common/src/json_util_form.cpp:54-76 | on any byte the parser does not reject, depth, string flag and escape flag stay equal to the parser's stack height and string mode, or the scan fails and the stack passes 128 |
| JsonDepth.RunInStep | common/src/json_util_form.cpp:54-76 | the same over any byte string: the scan is unsafe exactly when the parser's stack has passed 128 |
| JsonDepth.MirrorsStack | common/src/json_util_form.cpp:49-78 | in an accepted text, well formed or not, the registers equal the parser's stack height and string mode at every prefix the parser has not rejected |
| JsonDepth.GuardBoundsStack | common/src/json_util_form.cpp:49-78 | no accepted byte string makes the parser open more than 128 containers before it finishes or rejects |
| JsonDepth.GuardIsExact | common/src/json_util_form.cpp:49-90 | among the texts the parser accepts, the guard lets through exactly those that need at most 128 open containers |
| JsonDepth.ScanPieces | common/src/json_util_form.cpp:55-69 | quotes, brackets and backslashes inside any RFC 8259 string literal leave the scan where it was |
| JsonDepth.ScanTree | common/src/json_util_form.cpp:49-78 | scanning a text of nesting n from depth d returns to d, or fails, exactly as d + n is within 128 or not |
| JsonDepth.GuardMeasuresDepth | common/src/json_util_form.cpp:49-78 | for every RFC 8259 text, with any white space, escapes and brackets in strings, the guard accepts if and only if the nesting is at most 128 |
| JsonDepth.SafeParseOfText | common/src/json_util_form.cpp:80-90 | SafeJsonParse is transparent on texts of nesting at most 128 and discards all deeper ones |
| JsonDepth.SafeParseOfDump | common/src/json_util_form.cpp:80-90 | a printed value parses back to itself if and only if its nesting is at most 128 |
| JsonDepth.SafeParseFits | common/src/json_util_form.cpp:80-90 | whatever bytes come in, a parsed value is a proper one with nesting at most 128 |
| JsonDepth.CutDumpNeverParsesBack | interfaces/inner_api/src/form_provider_data.cpp:335-340 | no proper prefix of a printed value parses to that value |
| JsonParser.ParsesEveryText | common/src/json_util_form.cpp:89 | the reference parser accepts every RFC 8259 text with paired surrogates and finds the value it denotes |
| JsonParser.ParseDump | interfaces/inner_api/src/form_provider_data.cpp:526-527 | printing and parsing is the identity on all values a json object can hold |
| JsonParser.ParseFits | common/src/json_util_form.cpp:89 | a parsed value nests no deeper than the parser's stack ever was |
| JsonGrammar.ParserIsGrammar | common/src/json_util_form.cpp:89 | the reference parser yields v on s if and only if s is an RFC 8259 text of v, so it accepts nothing beyond the grammar |
| JsonGrammar.SafeParseIsShallowGrammar | common/src/json_util_form.cpp:49-90 | SafeJsonParse yields v on s if and only if s is an RFC 8259 text of v with at most 128 containers open at once |
| JsonGrammar.StepFollows | common/src/json_util_form.cpp:89 | every step the parser takes extends a derivation of exactly the bytes read so far |
| JsonGrammar.PropsAppend | common/src/json_util_form.cpp:89 | members take effect in the order of the text, so a repeated key has its last value |
| JsonValues.CompactDenotes | interfaces/inner_api/src/form_provider_data.cpp:526-527 | the compact dump is a well-formed text that denotes the value and has its nesting |
| JsonValues.EscapeDecodes | interfaces/inner_api/src/form_provider_data.cpp:526-527 | the printer's escapes of any bytes decode to these bytes |
| SharedMemory.WriteFileDescriptor | interfaces/inner_api/src/form_provider_data.cpp:461-479 | on success exactly one new descriptor over the same memory is open and the parcel owns it; on failure none is left open |
| SharedMemory.ReadFileDescriptor | interfaces/inner_api/src/form_provider_data.cpp:361-374 | the result is a fresh duplicate of the parcel's next descriptor, or nothing was opened |
| SharedMemory.FillNewMemory | interfaces/inner_api/src/form_provider_data.cpp:481-510 | one open descriptor mapped once and holding the data, or, after a failure at any of the four steps, nothing open and nothing mapped |
| SharedMemory.WriteAshmemDataToParcel | interfaces/inner_api/src/form_provider_data.cpp:481-522 | on every path all mappings and all descriptors are released except one duplicate that a success leaves to the parcel; it succeeds exactly for a positive size if the system does |
| SharedMemory.WriteAshmemFormData | interfaces/inner_api/src/form_js_info.cpp:164-207 | the same for the outer form data, and it succeeds only, and without system failure always, for sizes from 1 to 128 MiB |
| SharedMemory.ReleaseMemory | interfaces/inner_api/src/form_provider_data.cpp:376-391 | exactly the given mapping and the given descriptor are gone |
| SharedMemory.ReadAshmemDataFromParcel | interfaces/inner_api/src/form_provider_data.cpp:393-438 | on every path descriptors and mappings are as before; success yields the memory's bytes and needs a size equal to the memory's and at most 32 MiB |
| SharedMemory.ReadAshmemFormData | interfaces/inner_api/src/form_js_info.cpp:253-281 | the same with 128 MiB |
| ProviderCodec.TextRoundTrip | interfaces/inner_api/src/form_provider_data.cpp:524-537 | for texts of every length, inline or in shared memory: refused exactly when the int32 length is above the reader's limit, else the cursor is at what follows and the text is whole exactly when its length fits or wraps to an inline one |
| Ipc.ToInt32Wraps | interfaces/inner_api/src/form_provider_data.cpp:528 | the announced length is the one 32-bit value that differs from the size by a multiple of 2 to the 32 |
| ProviderCodec.DumpArrives | interfaces/inner_api/src/form_provider_data.cpp:320-340 | a dump of any length is read back as the value it was printed from if and only if the nesting is at most 128 and the dump was not cut |
| ProviderCodec.ImagesRoundTrip | interfaces/inner_api/src/form_provider_data.cpp:554-565 | any number of raw images arrives in order with its names and bytes, each with the constant length, over whatever the map held |
| ProviderCodec.CountedImages | interfaces/inner_api/src/form_provider_data.cpp:440-459 | whatever count is announced, exactly that many leading images are read and the others stay in front of the cursor |
| ProviderCodec.ImageSectionRoundTrip | interfaces/inner_api/src/form_provider_data.cpp:342-358 | the result of reading the image section for every state and every number of images, also one whose count wraps round |
| ProviderCodec.ImagesArriveWhole | interfaces/inner_api/src/form_provider_data.cpp:342-358 | the section is read back to the cursor behind it unless an ADDED one has more than 1000 images, and then it is refused or its images do not all arrive |
| ProviderCodec.DataRoundTrip | interfaces/inner_api/src/form_provider_data.cpp:318-359 | for objects of any size: a marshalled object followed by anything is read back, to the cursor at what follows, if and only if it is readable; the JSON is then the sender's, {} for null, [] and {}; otherwise what is read differs, and nothing is read if the sizes fit the int32 fields |
| ProviderCodec.DataArrives | interfaces/inner_api/src/form_provider_data.cpp:318-359 | field by field, for sizes within an int32: the JSON as it was, {} for null, [] and {}; the state; with ADDED every raw image in order by name and bytes; nothing else; and it is refused exactly beyond a nesting of 128, a dump of 32 MiB or, with ADDED, 1000 images |
| ProviderCodec.ReadableInRange | interfaces/inner_api/src/form_provider_data.cpp:318-359 | for sizes that fit the int32 fields, readable means: dump of nesting at most 128 and at most 32 MiB, and with ADDED at most 1000 raw images |
| ProviderCodec.ArrivalRepresentable | interfaces/inner_api/src/form_provider_data.cpp:340-356 | what arrives keeps the type's invariant and can be sent on |
| LostWrites.WireDataWhole | interfaces/inner_api/src/form_provider_data.cpp:544-574 | the wire form of a successful Marshalling is complete if and only if none of the unchecked writes was lost |
| LostWrites.WireRoundTrip | interfaces/inner_api/src/form_provider_data.cpp:318-359 | for every readable object, every set of lost unchecked writes and anything that follows: the receiver reads what was sent, to the cursor behind it, whatever misread bytes yield, if and only if nothing was lost or only a zero at the very end: the default state, or the count of no images |
| LostWrites.DeadEndImages | interfaces/inner_api/src/form_provider_data.cpp:440-459 | if sizes or names of images are lost, one way to misread is such that the images are refused, or the cursor is not at what follows, or the name of the last image is missing |
| LostWrites.LostState | interfaces/inner_api/src/form_provider_data.cpp:551 | what a receiver makes of an object whose image state alone was lost, for all objects, anything that follows and anything misread bytes yield: with ADDED and not exactly one image an object without images and with the count as its state, with one image what reading an image behind its own flag gives, else what reading the section from what follows gives |
| LostWrites.LostStateUnnoticed | interfaces/inner_api/src/form_provider_data.cpp:551 | with ADDED the loss is certain to go unnoticed if and only if there is not exactly one raw image, and then what arrives differs; it is certain to have no consequence if and only if the state was the default and nothing follows |
| LostWrites.LostStateGoesUnnoticed | interfaces/inner_api/src/form_provider_data.cpp:551 | a concrete object for which losing that write is reported by nobody and changes the object |
| FormProviderDataModel.FormProviderData.SetDataString | interfaces/inner_api/src/form_provider_data.cpp:235-250 | if the text, {} for the empty one, is an RFC 8259 text of an object with at most 128 containers open at once, the JSON is that object, otherwise it is unchanged; the caller's empty text becomes {} |
| FormProviderDataModel.InstalledIs | interfaces/inner_api/src/form_provider_data.cpp:235-250 | the same about the installed value itself, in terms of the grammar alone |
| FormProviderDataModel.InstallsDump | interfaces/inner_api/src/form_provider_data.cpp:235-250 | installing what was printed from an object of nesting at most 128 gives that object, and installing the empty text {} |
| FormProviderDataModel.FormProviderData.MergeData | interfaces/inner_api/src/form_provider_data.cpp:255-270 | an empty value (null, [] or {}) changes nothing, a value merged into an empty one replaces it, and otherwise the call throws, changing nothing, exactly if the old value is no object; the rest of the result is given by MergedLookup and MergedElements |
| FormProviderDataModel.MergedLookup | interfaces/inner_api/src/form_provider_data.cpp:255-270 | after merging objects every member of the added one has its new value and all others keep theirs |
| FormProviderDataModel.MergedCases | interfaces/inner_api/src/form_provider_data.cpp:255-270 | which of the two values is kept, taken or combined, for values of every kind, a fresh object's null included |
| FormProviderDataModel.MergedElements | interfaces/inner_api/src/form_provider_data.cpp:266-268 | elements of a merged array are found under their decimal index, a merged scalar under the empty key, and all other members stay |
| FormProviderDataModel.DecimalReads | interfaces/inner_api/src/form_provider_data.cpp:266-268 | the key of an array element is its index in decimal, without leading zeros |
| FormProviderDataModel.MergedFits | interfaces/inner_api/src/form_provider_data.cpp:255-270 | merging values of any kinds never deepens them |
| FormProviderDataModel.MergedAllShallow | interfaces/inner_api/src/form_provider_data.cpp:255-270 | any sequence of merges keeps nesting within 128 |
| FormProviderDataModel.MergedAllOneMore | interfaces/inner_api/src/form_provider_data.cpp:255-270 | a sequence of merges is one merge after the other, and one that throws is skipped |
| FormProviderDataModel.InstalledAndMergedPassesGuard | interfaces/inner_api/src/form_provider_data.cpp:235-270 | JSON installed from any text and merged any number of times is accepted by the receiver's guard and read back unchanged |
| FormProviderDataModel.FormProviderData.WriteFormData | interfaces/inner_api/src/form_provider_data.cpp:524-537 | without system failure it always succeeds; a success appends the dump of the JSON, {} for null, [] and {}, inline up to 32 KiB and in shared memory above, behind its length, which alone may be missing, exactly when a failure occurred |
| FormProviderDataModel.FormProviderData.Marshalling | interfaces/inner_api/src/form_provider_data.cpp:544-574 | no mapping and no descriptor leaks on any path; without system failure it always succeeds, since no raw image is empty; on every success the wire starts with the dump of the JSON, {} for null, [] and {}, and carries the object except for the unchecked writes that were lost, so the complete wire form if and only if nothing failed, and the form without the state if only that write was lost |
| FormProviderDataModel.FormProviderData.WriteImages | interfaces/inner_api/src/form_provider_data.cpp:554-565 | the count and all raw images in map order, with exactly the unchecked writes missing that failed; without system failure it always succeeds |
| FormProviderDataModel.FormProviderData.WriteImageDataToParcel | interfaces/inner_api/src/form_provider_data.cpp:598-614 | one image as shared memory, never for an empty image; the local FormAshmem leaves no descriptor open on any path |
| FormProviderDataModel.WriteToAshmem | interfaces/inner_api/src/form_ashmem.cpp:61-88 | on every path the mapping is gone and at most one new descriptor is open, which the FormAshmem owns; success means that it holds the bytes, and without system failure it succeeds exactly for at least one byte |
| FormProviderDataModel.FormProviderData.ConvertOne | interfaces/inner_api/src/form_provider_data.cpp:620-630 | a new shared image with the bytes owns its descriptor; after a failure the descriptor is closed |
| FormProviderDataModel.LengthsSurviveByChance | interfaces/inner_api/src/form_provider_data.cpp:561 | the received image records equal the sender's if and only if every image is as long as the pair whose size is sent |
| FormProviderDataModel.FormProviderData.ReadFromParcel | interfaces/inner_api/src/form_provider_data.cpp:318-359 | success means that object and cursor are what decoding the rest of the parcel into the old object gives; without system failure it succeeds exactly when that decoding does; raw images are never touched, and shared ones only in state ADDED |
| FormProviderDataModel.FormProviderData.HandleImageDataStateAdded | interfaces/inner_api/src/form_provider_data.cpp:440-459 | refuses more than 1000 images, else reads each into the map or stops at the first missing one |
| FormProviderDataModel.FormProviderData.Unmarshalling | interfaces/inner_api/src/form_provider_data.cpp:581-588 | a new object with the decoded value, or null exactly when there is none |
| FormProviderDataModel.FormProviderData.StoreImage | interfaces/inner_api/src/form_provider_data.cpp:125-135 | an empty name changes nothing; any other binds the bytes and sets ADDED; raw images stay named and within 1 byte to 50 MiB |
| FormProviderDataModel.FormProviderData.AddImageData | interfaces/inner_api/src/form_provider_data.cpp:155-197 | under reads of any lengths it terminates and either stores exactly the file's bytes, of size 1 to 50 MiB, under a non-empty name and sets ADDED, or changes neither map nor state; it stores whenever that is possible and nothing failed |
| FormProviderDataModel.FormProviderData.ConvertRawImageData | interfaces/inner_api/src/form_provider_data.cpp:616-635 | success, certain without system failure, leaves every raw image under its name with its bytes and length, every other shared image as it was, and no raw ones; failure keeps all raw ones and every shared image of another name; the union of shared and raw images is the same before and after on every path; no descriptor or mapping is left behind |
| FormProviderDataModel.ConversionLosesNothing | interfaces/inner_api/src/form_provider_data.cpp:616-635 | after any number of failed conversions, each stopping anywhere, a success still leaves the original shared map overridden by all raw images |
| FormProviderDataModel.AfterOneMoreFailure | interfaces/inner_api/src/form_provider_data.cpp:616-635 | a failed conversion stores the leading images over what earlier ones left |
| JsInfoCodec.IdentityRoundTrip | interfaces/inner_api/src/form_js_info.cpp:86-116 | the fields before the form data come back in order |
| JsInfoCodec.DetailsRoundTrip | interfaces/inner_api/src/form_js_info.cpp:118-145 | the fields after the form data come back in order |
| JsInfoCodec.SharedRoundTrip | interfaces/inner_api/src/form_js_info.cpp:319-326 | any number of shared images arrives with names and bytes |
| JsInfoCodec.OuterImagesRoundTrip | interfaces/inner_api/src/form_js_info.cpp:300-378 | over whatever the map held, the outer image section is self-delimiting for every state and count, also above 128, where writer and reader both skip the entries, unless such a count wraps round to at most 128 entries that the reader then expects |
| JsInfoCodec.MissingMemoryStops | interfaces/inner_api/src/form_js_info.cpp:355-377 | a missing shared memory ends the section without an error, and what was read before it stays |
| JsInfoCodec.PkgNamesRoundTrip | interfaces/inner_api/src/form_js_info.cpp:398-441 | a map split into its keys and its values is put together again |
| JsInfoCodec.AnyPkgNames | interfaces/inner_api/src/form_js_info.cpp:414-441 | any two vectors: of different lengths they bind nothing; else a key that is bound keeps its value and any other gets the first value listed under it |
| JsInfoCodec.TailRoundTrip | interfaces/inner_api/src/form_js_info.cpp:283-298 | provider data, images and names follow each other self-delimiting if the provider data is readable and the count of shared images agrees; unreadable provider data is refused or differs |
| JsInfoCodec.InfoRoundTrip | interfaces/inner_api/src/form_js_info.cpp:30-150 | a marshalled FormJsInfo of any size, followed by any tokens, is read back with the cursor at these tokens if it is readable: identity, details, package names, state and JSON ({} for null, [] and {}) are the sender's, and the form data is whole exactly when its length fits the int32 field or wraps to an inline one; if the provider data is not readable, what is read differs, and nothing is read if the sizes fit the int32 fields |
| JsInfoCodec.InfoArrivesExactlyWhen | interfaces/inner_api/src/form_js_info.cpp:30-150 | for infos of any size: it is read back whatever misread bytes yield if and only if its provider data is readable and the announced count of shared images agrees with the entries that follow |
| JsInfoCodec.ArrivalSendable | interfaces/inner_api/src/form_js_info.cpp:30-150 | whatever has arrived can be marshalled, and read again if it was readable |
| JsInfoCodec.HopConservesImages | interfaces/inner_api/src/form_js_info.cpp:300-378 | for a readable info, in state ADDED one hop puts exactly the sender's raw images into the receiver's provider data and exactly its shared images, if at most 128, into the receiver's outer map; in every other case the maps stay empty |
| JsInfoCodec.UnconvertedImagesTakeTwoHops | interfaces/inner_api/src/form_js_info.cpp:300-378 | images never converted are in the outer map after the second hop if and only if there are at most 128, and are gone otherwise |
| JsInfoCodec.InfosRoundTrip | interfaces/inner_api/src/form_render_stub.cpp:252-259 | a list of infos is read back in order if all are readable; otherwise, where the counts of shared images agree, another list or none is read, and none if the sizes fit the int32 fields |
| JsInfoCodec.WrappedListIsCut | interfaces/inner_api/src/form_render_stub.cpp:243-261 | of a list longer than its announced length only the announced part is read, so it is never delivered as it was sent, and the next info stands where the Want is expected |
| JsInfoCodec.ReloadRoundTrip | interfaces/inner_api/src/form_render_stub.cpp:178-198 | for lists of any length, each info at its place and the Want behind them are delivered if there are at most 8192 infos and all are readable; otherwise, where the counts of shared images agree, another list or nothing is, and nothing if the sizes fit the int32 fields |
| JsInfoCodec.ReloadArrivesExactlyWhen | interfaces/inner_api/src/form_render_stub.cpp:178-198 | for lists of any length with objects of any size: infos and Want are delivered whatever misread bytes yield if and only if there are at most 8192 infos and all are readable |
| JsInfoCodec.NoWantNoDelivery | interfaces/inner_api/src/form_render_stub.cpp:186-190 | infos with no Want behind them are not delivered |
| LostInfoWrites.WireInfoWhole | interfaces/inner_api/src/form_js_info.cpp:84-150 | the wire form of a successful Marshalling is complete if and only if none of the unchecked writes at either level was lost |
| LostInfoWrites.WireInfoRoundTrip | interfaces/inner_api/src/form_js_info.cpp:30-150 | for every readable info, every set of lost unchecked writes at either level and anything that follows: the receiver reads what was sent, whatever misread bytes yield, if and only if the form data length landed and the provider data is complete with both names vectors or without any names at the end, or the outer image section can stand for the missing inner one at the end |
| LostInfoWrites.LostNamesGoUnnoticed | interfaces/inner_api/src/form_js_info.cpp:398-441 | a lost key or value vector is never an error: every other field arrives whatever is misread, and if nothing follows the map is empty |
| LostInfoWrites.ProviderDamaged | interfaces/inner_api/src/form_js_info.cpp:283-298 | provider data of which any unchecked write was lost, unless it is the whole image section, never arrives for all receivers in front of the outer image section |
| FormJsInfoModel.FormJsInfo.Marshalling | interfaces/inner_api/src/form_js_info.cpp:84-150 | no mapping and no descriptor leaks on any path; without system failure it succeeds exactly when the form data length is at most 128 MiB; on every success the wire carries the object except for the unchecked writes that were lost, so the complete wire form if and only if none was |
| FormJsInfoModel.FormJsInfo.WriteFormData | interfaces/inner_api/src/form_js_info.cpp:152-162 | inline or through shared memory, and refused exactly above 128 MiB |
| FormJsInfoModel.FormJsInfo.WriteObjects | interfaces/inner_api/src/form_js_info.cpp:283-298 | provider data, outer images and names in this order, always without system failure |
| FormJsInfoModel.FormJsInfo.WriteImageData | interfaces/inner_api/src/form_js_info.cpp:300-340 | the announced count, and the entries only up to 128 of them |
| FormJsInfoModel.FormJsInfo.WritePkgNameMap | interfaces/inner_api/src/form_js_info.cpp:398-412 | all keys, then all values, in map order, each missing only if its unchecked write failed |
| FormJsInfoModel.FormJsInfo.ReadFromParcel | interfaces/inner_api/src/form_js_info.cpp:30-73 | success means that object and cursor are what decoding the rest of the parcel gives; without system failure it succeeds exactly when that decoding does |
| FormJsInfoModel.FormJsInfo.ReadFormData | interfaces/inner_api/src/form_js_info.cpp:40-48 | the text of either form, or failure exactly when memory and length do not agree or the limit is passed |
| FormJsInfoModel.FormJsInfo.ReadImageData | interfaces/inner_api/src/form_js_info.cpp:342-378 | skips a section above 128 and silently stops at a missing shared memory |
| FormJsInfoModel.FormJsInfo.ReadPkgNameMap | interfaces/inner_api/src/form_js_info.cpp:414-441 | binds keys to values in order, nothing when the vectors differ in length or one is missing |
| FormJsInfoModel.FormJsInfo.Unmarshalling | interfaces/inner_api/src/form_js_info.cpp:75-82 | a new object with the decoded value, or null exactly when there is none |
| FormJsInfoModel.FormJsInfo.ConvertRawImageData | interfaces/inner_api/src/form_js_info.cpp:380-396 | no image is lost on any path; success puts under each name the raw image's bytes, else the shared one's, else what the outer map held, and any failure leaves the outer map alone; without system failure it succeeds exactly when there are at most 128 images in all |
| FormJsInfoModel.WriteParcelableVector | interfaces/inner_api/src/form_render_proxy.cpp:316-331 | the count and all infos, or an error exactly when one of them cannot be written |
| FormJsInfoModel.ReloadForm | interfaces/inner_api/src/form_render_proxy.cpp:175-194 | the vector and the Want are on the parcel if and only if every info can be written |
| FormJsInfoModel.GetParcelableInfos | interfaces/inner_api/src/form_render_stub.cpp:243-261 | the decoded list, as long as announced, and its cursor, or an error exactly for a size outside 0..8192 or an unreadable element |
| FormJsInfoModel.HandleReloadForm | interfaces/inner_api/src/form_render_stub.cpp:178-194 | delivers what decoding the message gives, and nothing if it gives nothing |
| FormJsInfoModel.ReloadOverIpc | interfaces/inner_api/src/form_render_proxy.cpp:175-207 | sender and receiver run on one parcel: a list of any length is sent exactly when every form data can be written, and then delivered whole and in order if it has at most 8192 infos, all readable, and not otherwise where the counts of shared images agree; what is not sent or does not fit the int32 fields and the limits is an error; no mapping is left and the descriptors open before are untouched |
| EventBuilder.FormHiSysEventBuilder.PrepareParam | common/src/form_hisysevent_wrapper.cpp:34-44 | at the cap the returned tag is no real tag; below it the tag is the one asked for and the name abbreviates the key, or is empty after a failed copy |
| EventBuilder.FormHiSysEventBuilder.SetParamName | common/src/form_hisysevent_wrapper.cpp:46-59 | the stored name is the prefix of the key that ends at its first NUL, at its end or at the limit minus one, whichever comes first, or it is empty after a failed copy |
| EventBuilder.OnlyAbbreviation | common/src/form_hisysevent_wrapper.cpp:54 | a key has exactly one such name |
| EventBuilder.FormHiSysEventBuilder.InsertScalar | common/src/form_hisysevent_wrapper.cpp:61-149 | below the cap it appends one parameter with that tag, that very value and the abbreviated key, at the cap nothing, and touches no earlier parameter |
| EventBuilder.FormHiSysEventBuilder.InsertString | common/src/form_hisysevent_wrapper.cpp:151-180 | the new parameter points at a new buffer the builder owns that holds the C string; null, the cap and a failed copy change nothing |
| EventBuilder.FormHiSysEventBuilder.InsertIntegers | common/src/form_hisysevent_wrapper.cpp:182-300 | the same for integer vectors of five widths; an empty vector becomes a null pointer with length 0 |
| EventBuilder.FormHiSysEventBuilder.InsertTruths | common/src/form_hisysevent_wrapper.cpp:302-321 | the same for bool vectors |
| EventBuilder.FormHiSysEventBuilder.InsertStrings | common/src/form_hisysevent_wrapper.cpp:323-357 | the same for string vectors: one packed buffer and one pointer array, both new and owned |
| EventBuilder.FormHiSysEventBuilder.BuffersAlive | common/src/form_hisysevent_wrapper.cpp:151-357 | at any time, every buffer a parameter leads to, the shared one behind a pointer array included, is owned by the list of its kind |
| EventBuilder.ReadsBack | common/src/form_hisysevent_wrapper.cpp:151-357 | following a parameter's tag and pointers is legal and yields the inserted value, strings up to their first NUL |
| EventBuilder.FormHiSysEventBuilder.Write | common/src/form_hisysevent_wrapper.cpp:359-368 | what the service reads through the pointers it is given has, for everything inserted since the last clear and in order, the inserted name, tag and value, strings up to their first NUL; nothing is left |
| EventBuilder.FormHiSysEventBuilder.Clear | common/src/form_hisysevent_wrapper.cpp:370-382 | no parameter and no buffer list keeps anything |
| EventBuilder.FormHiSysEventBuilder.InsertedIsAStep | common/src/form_hisysevent_wrapper.cpp:25-44 | whatever an insert did to the object is one step of a run; only a failure cancels it or changes its name, and earlier parameters stay |
| EventBuilder.FormHiSysEventBuilder.Perform | common/src/form_hisysevent_wrapper.cpp:61-382 | any call of the object is the one step of a run that it stands for, with the tag and value it was given |
| EventBuilder.FormHiSysEventBuilder.PerformAll | common/src/form_hisysevent_wrapper.cpp:61-382 | any list of inserts, writes and clears on the object leaves the fields of the corresponding run, exactly the requested one if nothing fails |
| EventBuilder.CallOfIs | common/src/form_hisysevent_wrapper.cpp:61-357 | what each kind of request inserts when nothing fails: the abbreviated key, its tag and its value; a null string nothing |
| EventBuilder.InsertAll | common/src/form_hisysevent_wrapper.cpp:25-44 | after any list of inserts on a fresh object, without failure, it holds exactly the first 64 of them in order, each with its abbreviated key, its tag and its value |
| EventBuilder.PackStrings | common/src/form_hisysevent_wrapper.cpp:331-354 | buffer and pointers are packed: one buffer of all segments, pointer i at the start of segment i, no write outside it |
| EventBuilder.WriteSegment | common/src/form_hisysevent_wrapper.cpp:340-348 | one turn of the loop writes one segment and leaves everything behind it zero |
| EventBuilder.TotalLength | common/src/form_hisysevent_wrapper.cpp:332-335 | the buffer size is the end of the last segment |
| EventBuilder.PackedPointerReads | common/src/form_hisysevent_wrapper.cpp:323-357 | segments are adjacent, of length size + 1, and end with the buffer, and the C string at pointer i is value i up to its first NUL |
| EventBuilder.OffsetsAscend | common/src/form_hisysevent_wrapper.cpp:340-348 | segments do not overlap |
| EventBuilder.RunKeepsEarlierFields | common/src/form_hisysevent_wrapper.cpp:25-32 | over any run at most 64 parameters exist, and up to the next flush earlier ones stay as they are |
| EventBuilder.FirstInsertsSurvive | common/src/form_hisysevent_wrapper.cpp:25-44 | of any sequence of inserts exactly the first 64 survive, in order |
| FormWantModel.FormWant.Assign | interfaces/inner_api/src/form_want.cpp:65-77 | both objects hold the source's Want, also on self-assignment |
| FormWantModel.FormWant.SetParam | interfaces/inner_api/src/form_want.cpp:91-138 | binds the one key and nothing else |
| FormWantModel.FormWant.RemoveParam | interfaces/inner_api/src/form_want.cpp:188-192 | unbinds the one key and nothing else |
| FormWantModel.FilterInternalParams | interfaces/inner_api/src/form_want.cpp:194-201 | in whatever order the set is walked, the element is kept, exactly the sixteen internal parameters are gone and every other one keeps its value |
| FormWantModel.FormWant.GetFilteredWant | interfaces/inner_api/src/form_want.cpp:203-207 | the Want with its element and every parameter but the internal ones, with their values; the object unchanged |
| FormWantModel.MergeParams | interfaces/inner_api/src/form_want.cpp:214-217 | in whatever order the source's keys come, the result is the right-biased union |
| FormWantModel.FormWant.MergeFrom | interfaces/inner_api/src/form_want.cpp:209-220 | element kept; the parameters are those of both, the given ones winning |
| FormWantModel.MergeWantParams | interfaces/inner_api/src/form_want.cpp:222-231 | the target's element and the parameters of both, the source's winning |
| FormWantModel.FormWant.ExtractHostParamsToWant | interfaces/inner_api/src/form_want.cpp:233-248 | the target's element, its parameters, and the source's non-null host parameters over them |
| FormWantModel.MergeLaws | interfaces/inner_api/src/form_want.cpp:209-231 | merging is associative, idempotent and right-biased |
| FormWantModel.MergeInAnyOrder | interfaces/inner_api/src/form_want.cpp:215-217 | storing the source's keys one by one in any order, with repetitions, gives the merge |
| FormWantModel.FilterInAnyOrder | interfaces/inner_api/src/form_want.cpp:197-199 | removing the internal keys one by one in any order gives the same map |
| FormWantModel.FilterOverMerge | interfaces/inner_api/src/form_want.cpp:194-231 | filtering distributes over merging and is idempotent |
| FormWantModel.HostKeysAreNotInternal | interfaces/inner_api/src/form_want.cpp:25-52 | the host list and the internal list are disjoint |
| FormWantModel.ExtractCommutesWithFilter | interfaces/inner_api/src/form_want.cpp:194-248 | extraction does not see whether its source was filtered and commutes with filtering |
| FormWantModel.ExtractIsMergeOfHostKeys | interfaces/inner_api/src/form_want.cpp:233-248 | extraction equals merging the source restricted to the six host keys if and only if every host key bound to null in the source is bound to null in the target |
| FormWantModel.ExtractOverMerge | interfaces/inner_api/src/form_want.cpp:233-248 | extracting from a merge equals extracting twice if and only if no null in the right map hides a host value the target lacks |
| WantConcurrency.Perform | interfaces/inner_api/src/form_want.cpp:59-248 | each method of the object, run alone, does what one operation of the interleaving model does |
| WantConcurrency.WritersAlone | interfaces/inner_api/src/form_want.cpp:59-231 | what each operation, executed alone, makes of its object, key by key, with all other objects unchanged |
| WantConcurrency.ReadersAlone | interfaces/inner_api/src/form_want.cpp:84-248 | what each operation, executed alone, answers |
| WantConcurrency.StepInv | interfaces/inner_api/src/form_want.cpp:59-89 | every step of every thread keeps the invariant: locks say who is inside, writers are alone, values read are current, and the objects are the replay of the log |
| WantConcurrency.WriterIsAlone | interfaces/inner_api/src/form_want.cpp:71-75 | while one thread is inside to write an object, no other thread is inside that reads it |
| WantConcurrency.AcquireExactlyWhen | interfaces/inner_api/src/form_want.cpp:59-89 | an operation can enter exactly when nobody inside writes what it uses or reads what it writes: readers do not exclude each other, and a self-assignment waits for nobody |
| WantConcurrency.WriteIsAtomic | interfaces/inner_api/src/form_want.cpp:209-220 | the write step has the effect of the whole operation executed at that moment |
| WantConcurrency.EveryRunIsSerial | interfaces/inner_api/src/form_want.cpp:59-248 | for any number of objects, threads and operations and any schedule, objects and answers are those of one serial order that keeps every thread's program order |
| WantConcurrency.SerialOrderRespectsRealTime | interfaces/inner_api/src/form_want.cpp:59-248 | in every run, an operation that released its locks before another acquired its own comes first in the serial order |
| WantConcurrency.SomeThreadCanMove | interfaces/inner_api/src/form_want.cpp:71-73 | while any thread has work left, some thread has an enabled step |
| WantConcurrency.StepReducesWork | interfaces/inner_api/src/form_want.cpp:59-248 | every step reduces the remaining work by one, so no run is infinite |
| WantConcurrency.NoRunDeadlocks | interfaces/inner_api/src/form_want.cpp:59-89 | after any schedule, opposite assignments included, the rest can be completed, in exactly the steps that are left |
| DumpStrings.SplitString | interfaces/inner_api/src/form_mgr_stub.cpp:34-45 | appends chunks that join to the source, all but the last 1024 long and the last between 1 and 1024 |
| DumpStrings.ChunkAt | interfaces/inner_api/src/form_mgr_stub.cpp:40-44 | chunk i is the part of the source that starts at 1024 i |
| DumpStrings.SplitCount | interfaces/inner_api/src/form_mgr_stub.cpp:36-39 | the number of chunks is the length over 1024 rounded up |
| DumpStrings.SplitIsUnique | interfaces/inner_api/src/form_mgr_stub.cpp:34-45 | these conditions leave only one list of chunks |
| DumpStrings.HandleDump | interfaces/inner_api/src/form_mgr_stub.cpp:783-800 | the reply carries the status and, on success only, the chunks, each missing exactly if its write failed; an error is returned exactly when the vector could not be written, and no failure leaves a part of a vector |
| DumpStrings.GetStringInfo | interfaces/inner_api/src/form_mgr_proxy.cpp:883-913 | each of the five exits with its error code and output: the transport's error, the service's status, ERR_OK for an unreadable vector, the common error for an empty one, and the joined chunks |
| DumpStrings.AnswerArrives | interfaces/inner_api/src/form_mgr_proxy.cpp:883-913 | a whole answer appends exactly the service's text; an empty text gives the common error and a refused dump its own, both with the output unchanged |
| DumpStrings.SilentExactlyWhen | interfaces/inner_api/src/form_mgr_proxy.cpp:897-901 | the exact replies, of any tokens and however misread, for which the caller is told ERR_OK and its string has not changed |
| DumpStrings.DumpOverIpc | interfaces/inner_api/src/form_mgr_stub.cpp:783-800 | whatever writes fail and whatever misread bytes yield, the caller's string gains the whole text, with ERR_OK, or nothing, unless the status alone is missing on the reply |
| DumpStrings.WholeOrNothingExactlyWhen | interfaces/inner_api/src/form_mgr_stub.cpp:786-798 | whole text or nothing is certain for every caller if and only if the unchecked status is on the reply or the chunks are not |
| ProfileReader.CheckArrayType | common/include/json_util_form.h:53-104 | a non-empty array is stored exactly when all elements have the declared type and there was no error before; an empty one, or one of no declared type, is left alone |
| ProfileReader.GetValueIfFindKey | common/include/json_util_form.h:106-169 | after an error nothing happens; an absent key is an error exactly if it is necessary; a member of the declared type is stored as it is, a nullable one, an empty array and one of no declared element type are left alone, and any other member or element is a type error that stores nothing |
| ProfileReader.DecodeIs | common/include/json_util_form.h:106-169 | the two errors and the stored value of a field, each exactly when |
| ProfileReader.ReadProfile | common/include/json_util_form.h:106-169 | for any sequence of reads: success exactly if no field is missing or ill-typed, else the error of the first one that is; fields before it are stored, it and all later ones are not |
| ProfileReader.LastWriterWins | common/include/json_util_form.h:106-169 | a destination named by several fields ends with the value of the last one stored |
| ProfileReader.EachFieldOnItsOwn | common/include/json_util_form.h:106-169 | with one destination per field, each destination holds its own field's value exactly when that field comes before the first error, and its old value otherwise |

## Left out

- DataRoundTrip: for dumps or image counts beyond INT32_MAX it says that what is read differs from what was sent, not what it is; ImageSectionRoundTrip and TextRoundTrip say it part by part.
- ReloadRoundTrip: the same for lists with such objects; where a count of shared images wraps round to 1 to 128, what is read depends on the misread bytes and only ReloadArrivesExactlyWhen speaks of it.
- WireRoundTrip: the byte layout of a parcel is not part of this model, so harmless means harmless for every layout; a loss that is not may still do no harm under the actual one. The same holds for WireInfoRoundTrip, InfoArrivesExactlyWhen, ReloadArrivesExactlyWhen, LostStateUnnoticed and WholeOrNothingExactlyWhen.
- ReadFileDescriptor: duplicates share one memory in the source; here a descriptor maps to its bytes and two descriptors do not alias.
- WriteToAshmem: creating shared memory of no bytes is taken to fail. Once an image in a map owns a descriptor it is no longer counted, and on the wire an image is its bytes, not a descriptor.
- ImagesRoundTrip: the length written beside a raw image is the size of a pair of a shared pointer and an int32 on targets with 64-bit pointers; elsewhere it is another constant.
- SetParamName: MAX_LENGTH_OF_PARAM_NAME is defined outside this repository and is a parameter of the model's constructor.
- InsertScalar: the nine scalar overloads are one method over integers within the width of their tag, truth values and reals; float rounding is not modelled.
- InsertIntegers: the five integer-vector overloads are one method indexed by the tag.
- SetParam: the overloads box their value into an interface pointer outside this repository; the model starts from the boxed value. The typed getters are one operation.
- EveryRunIsSerial: std::lock on two mutexes is one all-or-nothing acquisition; fairness and the waiting order of the mutexes are not modelled.
- ParsesEveryText: a number is identified by its token and conversion to binary numbers is not modelled; lone surrogates are rejected, as RFC 8259 leaves them open; a leading byte-order mark, which the library skips, and a NUL, which it takes for the end of the input, are rejected; UTF-8 validity of raw bytes is not checked, and invalid UTF-8 that makes nlohmann's printer throw is not modelled.
- AddImageData: the file does not change while it is being read.
- GetValueIfFindKey: the conversion from JSON to the destination's C++ type, and what it may throw, is not modelled.
- HandleDump: stands for the four Dump handlers, which differ only in the service call whose result is a parameter here; how a handler's return value becomes the transport's result is a parameter of GetStringInfo.
- Interface tokens, permission checks, transport, watchdog timers and logging.
- ParseImagesData, RemoveImageData, UpdateData, SetImageDataState, SetImageDataMap and CopyFormJsInfoWithoutFormData: they overwrite fields freely or only copy them.
- The remaining proxy and stub pairs, the dispatch in OnRemoteRequest and the flat parcelable structs: field copying without interaction.
- Form refresh, timers, limits and the recycle and recover life cycle.
