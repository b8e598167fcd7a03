# GPUStack operator: wire codec and device bindings

A Dafny model of four parts of the operator and of what they promise:

- the protobuf codec of the `v1` API (`api/v1/generated.pb.go`): six nested message types, encoders that
  fill a buffer from its tail, decoders that merge into a message, and the skipper for unknown records;
- the text formats of the device bindings (`binding/helper.go`, `binding/helper_linux.go`): range strings
  such as `0-3,5`, bitmasks, the NUMA tables, PCI topology from sysfs paths, and the `pci.ids` parser;
- the lifecycle of a vendor's shared library (`binding/types.go`, `binding/amdsmi/library.go`,
  `binding/dl/dl.go`): the reference count, interleaved callers of Init and Shutdown, the symbol cache;
- queries that probe for a count and then fill a buffer (`binding/amdsmi/library_device.go`).

Code that updates objects or buffers is modelled by classes, arrays and loops, each tied by its `ensures`
to a function on values; the laws are lemmas about those functions. The wire codec is additionally tied to a
recursive grammar of records (`WireGrammar`), in the terms of the Protocol Buffers Encoding guide, sections
"Base 128 Varints", "Message Structure", "Length-Delimited Records", "Last One Wins" and "Groups".

| files | contents |
|---|---|
| `Integers`, `Options`, `Text`, `TextFacts`, `IntLists` | machine integers, optional values, Go's string helpers and what they are from the outside, sorted lists |
| `Varint`, `WireGrammar`, `MessageLoop`, `WireFacts`, `Codecs` | varints, the record grammar and skipper, the decoder's loop, both in plain numbers, nested and repeated fields |
| `Messages`, `MessageFields`, `MessageLaws`, `MessageObjects` | the six messages as values, their field numbers and bytes, their laws, and as mutable objects |
| `CountingLoops`, `RangeStrings`, `RangeNormalForm`, `Bitmasks`, `NumaMaps`, `RangeText` | the wrapping counter, range strings, their normal form, masks, CPU and node maps, all of them as text |
| `PciTopology`, `PciPaths`, `PciIds`, `PciWords`, `PciDatabase`, `PciFilter` | bridge chains and closeness, the same on the text of a path, the `pci.ids` parser, its words, whole databases, any text |
| `LibraryLifecycle`, `AmdSmiReturns`, `AmdSmiClients`, `SymbolCache`, `LibraryCache`, `ProcessQuery` | counted library, interleaved callers, cached lookups, the two together, bounded queries |

## Conventions

- Go's `int` is 64 bits wide. Wrap-around, truncation and two's complement conversion are written out; the
  bound that a slice is shorter than 2^63 bytes is the type `bytes`.
- Types whose codec lives in Kubernetes (`ObjectMeta`, `ListMeta`, `Time`) are parameters (`Codecs.SubCodec`):
  a zero value, a size, a marshaller that may fail, an unmarshaller that may reject, and what it then leaves.
  Round trips are stated as equivalences with `Survives`, whether the nested value survives its own codec.
- File contents, the answers of `dlopen`, `dlclose`, `dlsym`, callbacks and vendor calls are parameters or
  events.
- A string is a sequence of code points. `strings.ToLower` is a parameter of the `pci.ids` parser.

Where code and comments disagree the code is followed. The example at `binding/helper.go:186` keeps 3 and 4
apart, but the loop merges runs across words (`Bitmasks.AcrossWords`). The comment at
`binding/types.go:77-79` lets Unload of an unloaded library succeed, but the code returns an error.

Seven behaviours of the code are stated as results, each with the exact condition and an input that shows it:

- a list does not survive printing and parsing if it holds a negative number, or both of the largest two ints
  (`RangeNormalForm.PrintParses`, `RangeStrings.NegativeTakesItsRun`);
- parsing a range that ends at the largest int never ends, because the counter wraps
  (`CountingLoops.ForeverExactly`, `RangeStrings.LargestRangeLoops`);
- Init leaks a hold on the library when it fails after Load, and then nothing ever closes it
  (`AmdSmiClients.ClosedAtRest`, `AmdSmiClients.RefusedInitLeaks`);
- the count and the handle disagree after exactly three kinds of callback failure
  (`LibraryLifecycle.ConsistentExactly`, `LibraryLifecycle.LoadWithoutLibrary`);
- a library opened over an open one leaves the symbol cache stale exactly when the two files answer differently
  (`SymbolCache.CacheExactly`, `SymbolCache.ReopenGoesStale`), and Load does that after a callback that panicked
  (`LibraryCache.PanicGoesStale`);
- the `pci.ids` parser panics exactly on texts with an orphaned subdevice line, and dropping vendors while parsing
  can differ from dropping them afterwards (`PciFilter.PanicsExactly`, `PciFilter.FilterExactly`,
  `PciFilter.UntidyDiffers`);
- the two readers of CPU lists differ exactly on ranges whose low end alone does not parse
  (`NumaMaps.ReadersAgreeExactly`, `NumaMaps.ReadersDiffer`).

## Model

| member | source | states |
|---|---|---|
| Varint.SovIsLength | api/v1/generated.pb.go:430-432 | the bit-length formula is the number of bytes the encoder writes, 1 to 10 for a uint64 |
| Varint.VarintRoundTrip | api/v1/generated.pb.go:533-546 | for every uint64 and whatever follows, the read loop returns the encoded value and its length |
| Varint.VarintMinimal | api/v1/generated.pb.go:533-546 | no accepted encoding of a value is shorter than the one the encoder writes |
| Varint.EncodeVarintByte | api/v1/generated.pb.go:320-330 | byte i of an encoding is bits 7i to 7i + 6 of the number, with the flag set on all but the last |
| Varint.ReadVarintCut | api/v1/generated.pb.go:533-546 | a varint that does not end gives UnexpectedEOF in fewer than ten bytes and an overflow from ten on, with the groups read so far |
| Varint.ReadVarint | api/v1/generated.pb.go:533-546 | a successful read covers exactly a varint prefix of the input |
| Varint.DecodeVarint | api/v1/generated.pb.go:533-546 | the shift-and-or loop, which drops bits past the 64th and returns overflow and end-of-input errors, reads the value of the seven-bit groups, or what it had accumulated when it failed |
| Varint.EncodeVarintAt | api/v1/generated.pb.go:320-330 | writes exactly the encoding so that it ends at the offset, returns its start, touches no other byte |
| WireGrammar.SkipGenerated | api/v1/generated.pb.go:1408-1485 | the depth-counting loop computes Skip on every input and terminates |
| WireGrammar.SkipIffRecord | api/v1/generated.pb.go:1408-1485 | it reports n within the input if and only if the first n bytes are one well-formed record, groups nested to any depth |
| WireGrammar.SkipRecord | api/v1/generated.pb.go:1408-1485 | at any depth, a well-formed record is crossed exactly, whatever follows it |
| WireGrammar.SkippedRecord | api/v1/generated.pb.go:1408-1485 | the record that a successful skip crossed, rebuilt as a tree |
| WireFacts.SkipByTag | api/v1/generated.pb.go:1428-1479 | by the last three bits of the tag: 8 bytes for 1, 4 for 5, an error each for an end of group, for 6 and 7, and for a varint or length that does not end |
| WireFacts.SkipNumber | api/v1/generated.pb.go:1430-1464 | past a varint, or past a payload of the length given, unless the end does not fit an int |
| WireFacts.SkipCut | api/v1/generated.pb.go:1412-1427 | which error an empty input and a tag that does not end give |
| MessageLoop.NextField | api/v1/generated.pb.go:530-749 | one turn of the loop, with tag, wire-type and length checks and wrap-around at absolute indices in the order of the code, reads the field at the index |
| WireFacts.DecodeBadTag | api/v1/generated.pb.go:547-554 | the error for an end of group and for every tag whose bits 3 to 34, as a signed 32-bit number, are not positive, whatever follows |
| WireFacts.DecodeBadKnown | api/v1/generated.pb.go:555-574 | the error for a known field with the wrong wire type, and for a length that does not end |
| WireFacts.DecodeBadLength | api/v1/generated.pb.go:575-585 | the error for a length beyond the input: end of input, or an invalid length where the end does not fit an int |
| WireFacts.DecodeBadUnknown | api/v1/generated.pb.go:736-749 | an unknown field is rejected with the error that skipping it reports, or as the end of the input if it would end beyond it |
| WireFacts.DecodeCut | api/v1/generated.pb.go:533-546 | the error for a tag that does not end |
| MessageLoop.NextChunk | api/v1/generated.pb.go:560-587 | the length-delimited part of a turn, with its three length checks |
| MessageLoop.ReadField | api/v1/generated.pb.go:547-749 | every accepted field is non-empty, lies within the input and has the payload kind its field number demands |
| MessageLoop.DecodeIffRecords | api/v1/generated.pb.go:527-756 | an input is accepted with result m' if and only if it is a sequence of well-formed records whose application one by one yields m' |
| MessageLoop.AcceptedRecords | api/v1/generated.pb.go:527-756 | success consumes the whole input as well-formed records |
| MessageLoop.DecodeRecord | api/v1/generated.pb.go:530-749 | decoding a record and anything after it is applying the record and going on |
| MessageLoop.ConcatIsMerge | api/v1/generated.pb.go:527-756 | if a decodes onto m, decoding a followed by any b gives what decoding a and then b gives, message or rejection, up to which of the two length errors is reported |
| MessageLoop.UnknownTransparent | api/v1/generated.pb.go:736-749 | inserting any well-formed record with an unknown positive field number at any field boundary leaves the outcome as it was, up to which of the two length errors is reported |
| MessageLoop.DecodeShift | api/v1/generated.pb.go:579-585 | where a message starts in its input matters only for which of the two length errors is reported |
| MessageLoop.ReachedIsPrefix | api/v1/generated.pb.go:527-756 | when a decoder returns, a prefix of the input has been decoded: all of it if it accepts, and otherwise what comes before the field that stops it, after which the message is what that field leaves of it |
| Codecs.ElementsMerge | api/v1/generated.pb.go:1382-1386 | applying the records of a repeated field appends its elements, each decoded into a zero value, or rejects |
| Codecs.AppendExact | api/v1/generated.pb.go:1382-1386 | the elements come back unchanged if and only if each survives its own codec |
| Codecs.ElementsSizeIsLength | api/v1/generated.pb.go:421-426 | the announced size of a repeated field is the length written, when each element announces its own |
| Codecs.FailureIsLast | api/v1/generated.pb.go:294-299 | the error that stops a repeated field is that of the last element that cannot be marshalled |
| MessageLaws.ConditionMerges | api/v1/generated.pb.go:527-756 | decoding an encoded Condition onto any Condition replaces every field, merges the time, or rejects with its error |
| MessageFields.ConditionField | api/v1/generated.pb.go:555-749 | for every well-formed record, by the number on its tag: 1 Type, 2 Status, 3 LastTransitionTime, 4 ObservedGeneration, 5 Reason, 6 Message, each with its wire type; every higher number leaves the message alone |
| MessageFields.SpecField | api/v1/generated.pb.go:1051-1098 | the same of SettingSpec: 1 Value |
| MessageFields.SettingStatusField | api/v1/generated.pb.go:1134-1252 | the same of SettingStatus: 1 Description, 2 Editable, 3 Sensitive, 4 Value |
| MessageFields.SettingField | api/v1/generated.pb.go:785-898 | the same of Setting: 1 ObjectMeta, 2 Spec, 3 Status |
| MessageFields.ListField | api/v1/generated.pb.go:934-1015 | the same of SettingList: 1 ListMeta, 2 Items, each decoded into an empty Setting |
| MessageFields.StatusField | api/v1/generated.pb.go:1288-1400 | the same of Status: 1 Phase, 2 PhaseMessage, 3 Conditions, each decoded into an empty Condition |
| MessageFields.OthersSkipped | api/v1/generated.pb.go:736-749 | for every number up to 2^29 - 1 that a message does not list, and any record with the tag EncodeVarint(8n + w), all six decode to what they held |
| MessageFields.Field17 | api/v1/generated.pb.go:547-587 | 8a 01 01 78 leaves a Condition alone and 0a 01 78 sets its Type |
| MessageFields.ConditionWire | api/v1/generated.pb.go:53-92 | the bytes of a Condition, tags in literal numbers, fields in order, the generation as an unsigned number |
| MessageFields.SpecWire | api/v1/generated.pb.go:209-222 | the bytes of a SettingSpec, none for a nil Value |
| MessageFields.SettingStatusWire | api/v1/generated.pb.go:239-271 | the bytes of a SettingStatus, a bool as one byte |
| MessageFields.SettingWire | api/v1/generated.pb.go:109-145 | the bytes of a Setting around those of its parts |
| MessageFields.ListWire | api/v1/generated.pb.go:162-192 | the bytes of a SettingList: metadata, then the items in order |
| MessageFields.StatusWire | api/v1/generated.pb.go:288-318 | the bytes of a Status: phases, then the conditions in order |
| MessageFields.ConditionLeft | api/v1/generated.pb.go:648-651 | a rejected record leaves a Condition as it was, but for the time as its own codec left it |
| MessageFields.GenerationLeft | api/v1/generated.pb.go:653-671 | a generation that is cut off is left with the groups that were read |
| MessageFields.SettingLeft | api/v1/generated.pb.go:815-884 | a rejected spec or status is left as far as its own payload was decoded |
| MessageFields.ListLeft | api/v1/generated.pb.go:997-1001 | an item is there whether or not its payload was accepted |
| MessageFields.StatusLeft | api/v1/generated.pb.go:1382-1386 | a condition is there whether or not its payload was accepted |
| MessageLaws.SpecMerges | api/v1/generated.pb.go:1023-1105 | decoding an encoded SettingSpec onto another: a nil Value leaves the old one, an empty one replaces it |
| MessageLaws.SettingStatusMerges | api/v1/generated.pb.go:1106-1259 | decoding an encoded SettingStatus replaces all four fields |
| MessageLaws.SettingMerges | api/v1/generated.pb.go:757-905 | decoding an encoded Setting merges metadata and spec and replaces the status |
| MessageLaws.ListMerges | api/v1/generated.pb.go:906-1022 | decoding an encoded SettingList merges the metadata and appends the items |
| MessageLaws.StatusMerges | api/v1/generated.pb.go:1260-1407 | decoding an encoded Status replaces the phases and appends the conditions |
| MessageLaws.SpecRoundTrip | api/v1/generated.pb.go:1023-1105 | a SettingSpec decodes from its bytes into a reset message unchanged, nil and empty Value told apart |
| MessageLaws.ConditionRoundTrip | api/v1/generated.pb.go:527-756 | a Condition, negative ObservedGeneration included, comes back unchanged exactly when its time survives |
| MessageLaws.SettingRoundTrip | api/v1/generated.pb.go:757-905 | a Setting comes back unchanged exactly when its metadata survives |
| MessageLaws.ListRoundTrip | api/v1/generated.pb.go:906-1022 | a SettingList comes back unchanged exactly when its metadata and every item's survive |
| MessageLaws.StatusRoundTrip | api/v1/generated.pb.go:1260-1407 | a Status comes back unchanged exactly when the times of all its conditions survive |
| MessageLaws.StatusConcat | api/v1/generated.pb.go:1288-1386 | two encodings in a row, of conditions whose times survive: the last phase wins, the conditions append |
| MessageLaws.SettingConcat | api/v1/generated.pb.go:785-884 | two encodings in a row, the first with metadata that survives: an absent Value keeps the earlier one, the status is replaced, the metadata merged, or the whole rejected if that merge is |
| MessageLaws.NestedTwice | api/v1/generated.pb.go:819-884 | a Setting with two records for its spec, or two for its status, decodes as with one record that holds both payloads, up to which of the two length errors is reported |
| MessageLaws.ListSizeIsLength | api/v1/generated.pb.go:366-381 | Size of a list equals the bytes written for it and everything nested, given that the Kubernetes codecs announce their own sizes |
| MessageLaws.StatusSizeIsLength | api/v1/generated.pb.go:411-428 | Size of a Status equals the bytes written for it and its conditions, given that the time codec announces its own sizes |
| MessageLaws.ConditionRecordsWellFormed | api/v1/generated.pb.go:331-349 | the encoding of a Condition is well formed, and Size is its length when the time codec announces its own |
| MessageLaws.SettingRecordsWellFormed | api/v1/generated.pb.go:351-364 | the encoding of a Setting is well formed, and Size is its length when the metadata codec announces its own |
| MessageLaws.SpecRecordsWellFormed | api/v1/generated.pb.go:383-394 | the encoding of a SettingSpec is well formed and Size is its length |
| MessageLaws.SettingStatusRecordsWellFormed | api/v1/generated.pb.go:396-409 | the encoding of a SettingStatus is well formed and Size is its length |
| MessageObjects.Condition.MarshalToSizedBuffer | api/v1/generated.pb.go:53-92 | writes exactly Size bytes, the encoding, at the tail of any large enough buffer, or returns the error of the time; no byte outside that tail changes |
| MessageObjects.Condition.Unmarshal | api/v1/generated.pb.go:527-756 | updates the fields in place to what Decode yields, or returns its error; in every case the contents are exactly Reached, a half-read generation and a half-decoded time included |
| MessageObjects.SettingSpec.MarshalToSizedBuffer | api/v1/generated.pb.go:209-222 | writes the encoding, nothing for a nil Value, and no other byte |
| MessageObjects.SettingSpec.Unmarshal | api/v1/generated.pb.go:1023-1105 | updates Value in place to what Decode yields, or returns its error; in every case the contents are exactly Reached |
| MessageObjects.SettingStatus.MarshalToSizedBuffer | api/v1/generated.pb.go:239-271 | writes exactly Size bytes at the tail, the encoding, and no other byte |
| MessageObjects.SettingStatus.Unmarshal | api/v1/generated.pb.go:1106-1259 | updates the fields in place to what Decode yields, or returns its error; in every case the contents are exactly Reached |
| MessageObjects.Setting.MarshalToSizedBuffer | api/v1/generated.pb.go:109-145 | writes exactly Size bytes, the encoding with both nested messages, or returns the error of the metadata; no byte outside that tail changes |
| MessageObjects.Setting.Unmarshal | api/v1/generated.pb.go:757-905 | updates itself and its nested objects in place to what Decode yields, or returns the error; in every case the contents are exactly Reached: a nested message that is rejected has been decoded as far as its own payload goes |
| MessageObjects.SettingList.Size | api/v1/generated.pb.go:366-381 | the loop computes the announced size |
| MessageObjects.SettingList.MarshalItems | api/v1/generated.pb.go:167-180 | the loop from the last item to the first writes all items in order, or reports the last one that fails |
| MessageObjects.SettingList.MarshalToSizedBuffer | api/v1/generated.pb.go:162-192 | writes exactly Size bytes at the tail, the encoding, and no other byte, or the error that stops it |
| MessageObjects.SettingList.Marshal | api/v1/generated.pb.go:147-155 | the encoding in a buffer of exactly the announced size, or the error; succeeds exactly when everything nested marshals |
| MessageObjects.SettingList.DecodeItem | api/v1/generated.pb.go:997-1001 | appends a fresh item and decodes into it, leaving the items already there alone; on an error the new item stays, with exactly what its payload decoded to so far |
| MessageObjects.SettingList.Unmarshal | api/v1/generated.pb.go:906-1022 | what Decode yields, or its error; in every case the contents are exactly Reached, the item that was rejected included; old items keep their identity and every appended one is fresh |
| MessageObjects.Status.Size | api/v1/generated.pb.go:411-428 | the loop computes the announced size |
| MessageObjects.Status.MarshalConditions | api/v1/generated.pb.go:293-306 | the loop from the last condition to the first writes all in order, or reports the last one that fails |
| MessageObjects.Status.MarshalToSizedBuffer | api/v1/generated.pb.go:288-318 | writes exactly Size bytes at the tail, the encoding, and no other byte, or the error that stops it |
| MessageObjects.Status.Marshal | api/v1/generated.pb.go:273-281 | the encoding in a buffer of exactly the announced size, or the error; succeeds exactly when every condition marshals |
| MessageObjects.Status.DecodeCondition | api/v1/generated.pb.go:1382-1386 | appends a fresh condition and decodes into it, leaving the others alone; on an error the new condition stays, with exactly what its payload decoded to so far |
| MessageObjects.Status.Unmarshal | api/v1/generated.pb.go:1260-1407 | what Decode yields, or its error; in every case the contents are exactly Reached, the condition that was rejected included; old conditions keep their identity and every appended one is fresh |
| MessageObjects.CopyList | api/v1/generated.pb.go:147-192 | marshalling a list object and unmarshalling into a fresh one gives an equal list, of fresh objects, exactly when all its metadata survives |
| MessageObjects.CopyStatus | api/v1/generated.pb.go:273-318 | the same of a Status object and the times of its conditions |
| Text.SafeIntOfNat | binding/helper.go:503-508 | reading a printed unsigned number gives it back, or the default when it does not fit an int |
| Text.AtoiInverts | binding/helper.go:503-508 | every int64 is read back from its decimal form, also with a plus sign |
| TextFacts.AtoiExactly | binding/helper.go:503-508 | a text reads as a number if and only if it is an optional sign and at least one digit whose value by places fits an int, and then as that value |
| TextFacts.SafeIntExactly | binding/helper.go:503-508 | with space around, it reads as exactly that number, and everything else as the default |
| TextFacts.SplitExactly | binding/helper.go:258-262 | the parts of a text are exactly what stands between separators or ends |
| TextFacts.JoinSplit | binding/helper.go:243-258 | joining the parts gives the text back, and no part holds a separator |
| TextFacts.SpaceTable | binding/helper.go:259-259 | white space, code point by code point |
| TextFacts.FormatIsNumeral | binding/helper.go:479-484 | a printed number is its digits without a needless zero |
| TextFacts.NumeralUnique | binding/helper.go:479-484 | there is one such text for a number |
| CountingLoops.ForeverExactly | binding/helper.go:266-268 | the loop over machine ints never ends exactly when its upper end is the largest int, and exactly when no number of turns brings its guard to fail |
| CountingLoops.EndsExactly | binding/helper.go:266-268 | every other loop ends after exactly one turn for each number of its range |
| RangeStrings.PartLoopsExactly | binding/helper.go:261-269 | the inner loop on a part never ends exactly when the part is a range that parses and ends at the largest int |
| RangeStrings.LargestRangeLoops | binding/helper.go:251-284 | on 9223372036854775806-9223372036854775807 the parser never returns |
| RangeStrings.LargestPairParses | binding/helper.go:251-284 | on the same two numbers with a comma between them it returns both |
| RangeStrings.StrRangeToList | binding/helper.go:251-284 | on every string on which the parser terminates, the strictly ascending list of exactly the numbers the string denotes, whatever the order of map iteration |
| RangeStrings.ParsePart | binding/helper.go:258-276 | one part on which the inner loop terminates contributes exactly its range, and nothing when it does not parse |
| RangeText.DenoteExactly | binding/helper.go:251-284 | a string names a number if and only if one of its comma-separated parts, space aside, is that number, or begins with two numbers joined by a dash between which it lies |
| RangeText.UnreadableIsEmpty | binding/helper.go:101-135 | a string without such a part parses to the empty list and maps to the empty string both ways |
| RangeText.NotAvailable | binding/helper.go:101-129 | N/A is such a string |
| RangeStrings.ListToStrRange | binding/helper.go:221-244 | sorts its argument in place, a permutation, and prints its runs |
| RangeText.PrintText | binding/helper.go:221-244 | a printed list is the texts of ranges that hold exactly its elements, from the lowest to the highest, none continuing the one before; each text is a numeral, or two joined by a dash |
| RangeText.DocumentedText | binding/helper.go:216-221 | 0, 1, 2, 4, 5, 7 prints as 0-2,4-5,7 |
| RangeStrings.PrintLoop | binding/helper.go:229-243 | the start/end loop closes a range at each value that is not one more than the value before; with duplicates a value can start a range of its own |
| RangeNormalForm.RunsSeparated | binding/helper.go:229-243 | on an ascending list the ranges are in order and maximal: a gap lies between any two |
| RangeStrings.PrintedPart | binding/helper.go:479-484 | a printed range reads back as itself, or as nothing when it starts below zero |
| RangeStrings.PrintDenotes | binding/helper.go:221-284 | for every list in any order with duplicates, the printed string denotes exactly its elements if and only if none is negative |
| RangeNormalForm.PrintParses | binding/helper.go:221-284 | for every list, printing and parsing returns the strictly ascending list of its distinct elements if and only if none is negative and the largest two ints are not both among them |
| RangeStrings.NegativeTakesItsRun | binding/helper.go:479-484 | -1, 0, 1 prints as one unreadable range, so all three are lost |
| RangeNormalForm.PrintTerminates | binding/helper.go:221-284 | for a list without negative numbers, parsing what it prints returns if and only if the list does not hold both of the largest two ints |
| RangeNormalForm.NormaliseIdempotent | binding/helper.go:221-284 | where parse-then-print returns, doing it again returns the same string, except that it never returns exactly when the largest two ints are both denoted |
| RangeNormalForm.NormaliseOnce | binding/helper.go:221-284 | a string on which parse-then-print returns once and not twice |
| RangeNormalForm.NormaliseDecides | binding/helper.go:221-284 | two strings on which parse-then-print returns normalise equally if and only if they denote the same set |
| RangeNormalForm.NormaliseMinimal | binding/helper.go:233-243 | where parse-then-print returns, no string with the same meaning has fewer comma-separated parts than the result |
| Bitmasks.BitmaskToList | binding/helper.go:203-214 | the shift loop lists the positions of the set bits from the offset on, none for a negative mask |
| Bitmasks.BitListMember | binding/helper.go:203-214 | a position is listed exactly when the mask is positive and that bit is set |
| Bitmasks.BitmaskToStr | binding/helper.go:187-195 | prints the positions of all words, each offset by the words before it |
| Bitmasks.BitmaskDenotes | binding/helper.go:187-214 | parsing the string returns, and gives exactly the positions i*bitsSize+j with bit j of word i set |
| Bitmasks.BitmaskNormal | binding/helper.go:187-214 | when masks fit their words, parsing and printing the string returns and gives it back, so runs are merged across words |
| Bitmasks.AcrossWords | binding/helper.go:186-195 | 0b1011 and 0b0101 over four-bit words give 0, 1, 3, 4, 6, with runs 0-1, 3-4 and 6 |
| NumaMaps.MapCPUAffinityStrToNumaNode | binding/helper.go:106-129 | spells exactly the nodes of the mapped CPUs named, independent of map iteration order |
| NumaMaps.MapNumaNodeStrToCPUAffinity | binding/helper.go:136-159 | spells exactly the CPUs of the nodes named, independent of map iteration order |
| NumaMaps.GetNumaNodeCPUMapping | binding/helper.go:493-501 | each populated node with its CPUs in ascending order, and no other node |
| NumaMaps.InversePartitions | binding/helper.go:493-501 | every mapped CPU is listed under exactly one node |
| NumaMaps.Adjoint | binding/helper.go:106-159 | the nodes of a CPU set lie within N exactly when its mapped CPUs are CPUs of N |
| NumaMaps.CpuStringDenotes | binding/helper.go:136-159 | the string of CPUs denotes the CPUs of the nodes named, and can always be parsed |
| NumaMaps.NodeStringDenotes | binding/helper.go:106-129 | the string of nodes denotes the nodes of the CPUs named, and can be parsed exactly when the largest two ints are not both among them |
| RangeText.NodeTextExactly | binding/helper.go:106-129 | the string of nodes names exactly the nodes from 0 up that the table gives for a CPU that is named and in the table |
| RangeText.CpuTextExactly | binding/helper.go:136-159 | the string of CPUs names exactly the CPUs of the table whose node, from 0 up, is named |
| RangeText.NamesExactly | binding/helper_linux.go:94-112 | a part of the table assigns a CPU if and only if it means it, or is a range whose low end does not read and whose high end is no lower |
| NumaMaps.NodeCpuNode | binding/helper.go:106-159 | nodes to CPUs to nodes: the second call always returns, and gives exactly the populated nodes named; the result can be parsed exactly when the largest two ints are not both among them |
| NumaMaps.ClosureReturns | binding/helper.go:106-159 | CPUs to nodes to CPUs returns exactly when the first parse does and the largest two ints are not both nodes of the CPUs named |
| NumaMaps.ClosureExtensive | binding/helper.go:106-159 | CPUs to nodes to CPUs, where both calls return, contains every mapped CPU named |
| NumaMaps.ClosureIdempotent | binding/helper.go:106-159 | where both calls return once they always return again, with the same string |
| NumaMaps.GetCPUNumaNodeMapping | binding/helper_linux.go:80-117 | each CPU gets the last node whose list names it, or -1 |
| NumaMaps.OwnerIsLast | binding/helper_linux.go:86-114 | a CPU's node names it, and no later readable node does |
| NumaMaps.AssignPart | binding/helper_linux.go:94-112 | one part of a list assigns exactly the CPUs it names, and no entry beyond the table |
| NumaMaps.AssignList | binding/helper_linux.go:94-113 | one readable list assigns its node to exactly the CPUs it names |
| NumaMaps.CpuPartTerminatesExactly | binding/helper_linux.go:95-105 | reading a part of the table ends if and only if it is not a range that ends at the largest int |
| NumaMaps.LargestCpuLoops | binding/helper_linux.go:94-112 | a cpulist on which reading the table never ends |
| NumaMaps.ReadersAgreeExactly | binding/helper_linux.go:94-112 | the table reader and the affinity reader take the same CPUs from a part, whatever space is in it, if and only if it is not a range whose low end alone does not parse |
| NumaMaps.ReadersDiffer | binding/helper_linux.go:94-112 | read as a cpulist, -5 assigns CPUs 0 to 5; read as an affinity, it is dropped |
| NumaMaps.ListReadersAgree | binding/helper_linux.go:94-113 | a list read as a table names exactly the CPUs it denotes as an affinity if and only if every CPU that such a range in it assigns is denoted by the list anyway |
| PciTopology.ResolvePCITopology | binding/helper.go:356-375 | on every absolute path the walk ends and yields Resolve: the longest run of bridges directly above the device, innermost first |
| PciTopology.RootIsOutermost | binding/helper.go:356-375 | the root is the outermost bridge, or the device itself, and never empty; every switch is a bridge |
| PciPaths.PathTopology | binding/helper.go:356-375 | on /p/bridges/dev, where each bridge has two colons and the last name of p has not, the root is the first bridge, or the device if there is none, and the switches are the bridges from the last to the first |
| PciPaths.BelowRootComplex | binding/helper.go:358-374 | /p:0/0:1:0/1:0:0 has the root 0:1:0 and that one switch: a name with one colon is no bridge |
| PciPaths.RedundantComponents | binding/helper.go:365-366 | empty components, dots, and names followed by two dots change nothing above the device |
| PciTopology.ComparePCIDevices | binding/helper.go:378-402 | the loop decides equality of root and whole bridge chain: 1, 0 or -1 |
| PciPaths.ClosenessExactly | binding/helper.go:378-402 | -1 exactly when a root is missing or the roots differ, 1 exactly when the chains agree as well, 0 otherwise |
| PciPaths.BareDevices | binding/helper.go:356-402 | two devices without bridges compare as 1 if they have the same name and as -1 otherwise |
| PciTopology.ClosenessSymmetric | binding/helper.go:378-402 | closeness is symmetric |
| PciTopology.ClosenessUltrametric | binding/helper.go:378-402 | compare(a,c) is at least the minimum of compare(a,b) and compare(b,c) |
| PciTopology.ResolvedCloseness | binding/helper.go:356-402 | for resolved devices, 1 means the same bridge chain, or the same device name where there is none; between devices behind bridges, at least 0 means the same outermost bridge |
| PciTopology.SiblingsClosest | binding/helper.go:356-402 | devices in one directory below a bridge compare as 1 |
| PciIds.ReadLine | binding/helper_linux.go:306-355 | one line updates the current ids and the table as Step says, including the panic on a missing device |
| PciIds.LineEnd | binding/helper_linux.go:298-301 | the inner loop stops at the first newline or the end |
| PciWords.FieldsOf | binding/helper_linux.go:312-343 | the words of a text are what it was woven from with space between |
| PciWords.TextIsWoven | binding/helper_linux.go:312-343 | every text is woven from its words |
| PciWords.WantedExactly | binding/helper.go:544-550 | all vendors if none are given, and otherwise exactly those given, wherever in the list |
| PciWords.GetNameExactly | binding/helper.go:424-442 | on every table: the subsystem's name if both its ids are given and listed, else the device's, else nothing |
| PciIds.GetPCIDeviceNames | binding/helper_linux.go:296-358 | the scan runs the state machine over the lines of the text |
| PciDatabase.ParsePrinted | binding/helper_linux.go:296-358 | parsing a printed well-formed database gives exactly the table of its wanted vendors, without a panic |
| PciDatabase.FilterPrinted | binding/helper_linux.go:311-323 | on a printed well-formed database, filtering while parsing equals filtering afterwards |
| PciDatabase.TableFind | binding/helper_linux.go:325-355 | the table holds a device exactly when the database lists it, with the last entry's names |
| PciDatabase.LookupPrinted | binding/helper.go:424-442 | GetName on a parsed well-formed database returns the name of the subsystem, else of the wanted device, else nothing |
| PciDatabase.SqueezeWords | binding/helper_linux.go:331-332 | a name written with single spaces is kept as it is |
| PciFilter.PanicsExactly | binding/helper_linux.go:296-358 | on every text and for any wanted vendors, the parser panics if and only if some subdevice line has a vendor and a device in force that no device line declared together |
| PciFilter.RunTracks | binding/helper_linux.go:296-358 | without such a line, the ids carried are those of the last vendor and device lines, and the table holds exactly the devices declared |
| PciFilter.TableIs | binding/helper_linux.go:296-358 | on every text without a panic, the table holds for each device and subdevice what the last line about it says, a device line clearing what was filed under its device, and nothing else |
| PciFilter.FilterExactly | binding/helper_linux.go:296-358 | on every text, neither parse panics and filtering commutes with parsing if and only if the text has no orphan with or without the filter and the last subdevice lines filed under each wanted device agree |
| PciFilter.CommutesExactly | binding/helper_linux.go:296-358 | filtering so far equals filtering afterwards at every line of a text, with no panic, if and only if no line is such an orphan of the unfiltered text and each subdevice line of a wanted vendor meets the same device with and without the filter, or adds nothing under either |
| PciFilter.FilterCommutes | binding/helper_linux.go:296-358 | on every text without an orphan in which each subdevice line of a wanted vendor meets the same device with and without the filter, neither parse panics and filtering commutes with parsing |
| PciFilter.TidyCommutes | binding/helper_linux.go:296-358 | so it does on every text in which no subdevice line precedes the first device line of its vendor |
| PciFilter.ReopenedCommutes | binding/helper_linux.go:310-354 | and on a text that is not like that: a vendor opened again keeps its device in force |
| PciFilter.UntidyDiffers | binding/helper_linux.go:338-354 | a text whose second vendor line is followed straight by a subdevice line panics unfiltered, and parses when only the second vendor is wanted |
| LibraryLifecycle.Library.Load | binding/types.go:118-154 | every outcome of open, callbacks, panic and close as Call says: the count goes up exactly when no error is returned |
| LibraryLifecycle.Library.Unload | binding/types.go:156-192 | every outcome of close and callbacks as Call says: an error keeps the count, a panic takes it down |
| LibraryLifecycle.LoadExactly | binding/types.go:118-154 | count, handle and outcome of Load for every answer of open, callbacks and close |
| LibraryLifecycle.UnloadExactly | binding/types.go:156-192 | count, handle and outcome of Unload for every answer of close and callbacks |
| LibraryLifecycle.Library.Close | binding/dl/dl.go:119-136 | closing a closed library succeeds, a refused dlclose keeps the handle |
| LibraryLifecycle.CountBalances | binding/types.go:118-192 | over every run the count is what it was plus the successful loads less the unloads that took effect |
| LibraryLifecycle.StepConsistent | binding/types.go:118-192 | a call breaks the agreement of handle and count exactly when a load callback panics, one fails and the close after it is refused, or an unload callback fails |
| LibraryLifecycle.ConsistentExactly | binding/types.go:118-192 | the handle is open exactly when the count is positive throughout a run if and only if no call of the run is such a case |
| LibraryLifecycle.LoadWithoutLibrary | binding/types.go:130-187 | after a failed unload callback the next Load succeeds with nothing open |
| AmdSmiClients.StepKeepsInv | binding/amdsmi/library.go:83-117 | every step of every caller, other than the three breaking calls of LibraryLifecycle.StepConsistent, keeps count, vendor count and handle in agreement |
| AmdSmiClients.RunKeepsInv | binding/amdsmi/library.go:83-117 | the invariant holds in every interleaving, without a breaking call, of any number of callers that shut down only what they initialised |
| AmdSmiClients.CountIsExact | binding/amdsmi/library.go:83-117 | in every such run the count equals the vendor count plus the callers midway plus the leaked holds, and the handle is open exactly when it is positive |
| AmdSmiClients.CallerIsServed | binding/amdsmi/library.go:83-117 | in every such run, while a caller is initialised or midway the library is open and a lookup of an exported symbol succeeds |
| AmdSmiClients.ClosedOnlyByLast | binding/amdsmi/library.go:105-117 | in every such run the shared object is closed only by an Unload, when every other caller is idle, the vendor count is zero and nothing is leaked |
| AmdSmiClients.RepliesAreHonest | binding/amdsmi/library.go:83-117 | in every such run a step of Init returns success exactly when it leaves the caller initialised; a failed load is a library not found, a missing symbol a function not found, the vendor's answers come back unchanged, and a refused last close is a library not found |
| AmdSmiClients.StepsAreInOrder | binding/amdsmi/library.go:83-117 | where each step takes its caller, by what it replies, and that it moves no other |
| AmdSmiClients.LeakedIsLeaks | binding/amdsmi/library.go:83-117 | in every such run the holds beyond the callers inside number exactly the calls that failed in Init after Load or had the last close refused |
| AmdSmiClients.ClosedAtRest | binding/amdsmi/library.go:83-117 | when every caller is idle, the library is closed if and only if no call of the run so far leaked, and the count is the number of leaks |
| AmdSmiClients.LeakIsForever | binding/amdsmi/library.go:83-117 | after one leak the library is open at every later point of every continuation |
| AmdSmiClients.RefusedInitLeaks | binding/amdsmi/library.go:83-91 | a caller whose only Init the vendor refuses is told so, and the library stays open at count 1 |
| SymbolCache.StepKeepsInv | binding/dl/dl.go:99-187 | every step of open, close and lookup keeps remembered answers about the library that is open, except exactly an open over an open library that answers differently about a symbol remembered or about to be |
| SymbolCache.RunKeepsCache | binding/dl/dl.go:99-187 | in every interleaving, up to the first such open, every remembered answer is the answer of the library open now |
| SymbolCache.CacheExactly | binding/dl/dl.go:99-187 | the cache is right, and what lookups in progress will record is right, throughout a run if and only if the run has no such open |
| SymbolCache.BreakShows | binding/dl/dl.go:99-117 | after such an open a wrong answer is remembered at once, or by one more step of a lookup |
| SymbolCache.CachedIsTrue | binding/dl/dl.go:147-160 | in a run without such an open before it, an answer from the cache is what the library open at that moment exports |
| SymbolCache.AskedIsTrue | binding/dl/dl.go:147-187 | an answer from dlsym is what the library open at the moment of asking exports, unless it was closed or replaced since the lookup read the handle |
| SymbolCache.BeginExactly | binding/dl/dl.go:147-160 | a lookup fails without a library, returns a remembered answer without asking, and otherwise asks about the library that is open |
| SymbolCache.RepliesAtEnds | binding/dl/dl.go:147-187 | a lookup returns at its first step or when it records, and then with what dlsym answered |
| SymbolCache.RecordIsRemembered | binding/dl/dl.go:176-186 | an answer recorded about the open library is the answer of every later lookup until a close, which forgets it |
| SymbolCache.ClosedWhileAsking | binding/dl/dl.go:147-187 | a run in which a close in between lets a lookup return any answer |
| SymbolCache.AddressAloneIsNotEnough | binding/dl/dl.go:43-49 | a run in which a lookup holds an answer that is wrong for the open library although the handle address matches, so the generation is needed |
| SymbolCache.ReopenGoesStale | binding/dl/dl.go:99-117 | a run in which an open over an open library makes the cache answer for the file before |
| LibraryCache.ServeIsCall | binding/types.go:118-192 | the steps of a Load or Unload, taken together, do to count and handle what LibraryLifecycle.Call says, and give the mutex back |
| LibraryCache.RunKeepsCache | binding/types.go:118-192 | in every interleaving of the steps of Load and Unload with any lookups, whatever files are opened, every remembered answer is that of the library open now, unless a load callback panics, an unload callback fails or a failed load cannot be closed |
| LibraryCache.PanicGoesStale | binding/types.go:122-149 | a run in which a load callback panics and the next Load leaves a wrong answer in the cache |
| ProcessQuery.GetComputeProcessGpus | binding/amdsmi/library_device.go:381-428 | the probe and retry loop yields Ask, the result and the buffer sizes, against any library |
| ProcessQuery.QueryIsBounded | binding/amdsmi/library_device.go:381-428 | at most four fills, buffers of 1 to 4096 rows each strictly larger than the last, a result that fits its buffer, and no rows with an error |
| ProcessQuery.ProbeExactly | binding/amdsmi/library_device.go:381-400 | what each answer to the probe leads to, other errors unchanged, more than 4096 refused |
| ProcessQuery.QueryAnswers | binding/amdsmi/library_device.go:393-425 | the first of at most four fills that is no shortage decides: its rows if it succeeds, else its own error; each size is what the library asked for, or one more |
| ProcessQuery.QueryGivesUp | binding/amdsmi/library_device.go:393-427 | after four shortages the query reports an insufficient size |
| ProcessQuery.RowsExactly | binding/amdsmi/library_device.go:417-423 | the rows are the first of the buffer, as many as were claimed and fit |
| ProcessQuery.SuccessIsComplete | binding/amdsmi/library_device.go:369-428 | against a library that claims success and shortage honestly and may otherwise fail as it likes, success returns the complete set |
| ProcessQuery.QueryConverges | binding/amdsmi/library_device.go:348-428 | against an honest library that does not otherwise fail, the query succeeds if and only if the first count is zero or one of the four fills finds a set of at most 4096 rows that has not grown, after fills that each found one that had |
| ProcessQuery.GetGpuProcessList | binding/amdsmi/library_device.go:311-346 | one call, or none without the symbol or above 4096 rows; the count for a zero capacity; no rows on a shortage; rows cut to the capacity; other errors returned unchanged |

## Left out

- MarshalTo, Reset and the other four Marshal methods: they call Size and MarshalToSizedBuffer on a buffer of
  that size, and assign the zero value.
- MessageLoop.ConcatIsMerge: does not say which of the two length errors is returned, because the code's
  wrap-around check sees absolute indices; the same holds of UnknownTransparent, DecodeShift and NestedTwice.
- RangeStrings.StrRangeToList: only where the loop terminates; on a range that ends at the largest int the
  counter wraps and the code never returns.
- RangeStrings.ParsePart: only where the loop terminates, for the same reason.
- NumaMaps.MapCPUAffinityStrToNumaNode: only where the parser terminates, for the same reason.
- NumaMaps.MapNumaNodeStrToCPUAffinity: only where the parser terminates, for the same reason.
- NumaMaps.GetCPUNumaNodeMapping: only where the loop terminates, for the same reason.
- NumaMaps.AssignList: only where the loop terminates, for the same reason.
- NumaMaps.AssignPart: only where the loop terminates, for the same reason.
- Bitmasks.BitmaskToStr: only masks whose positions fit an int; more words than that do not fit in memory.
- A dlopen or dlclose that fails without leaving a message for dlerror, which the code takes for success.
- `TypeMeta` and the shadow `Value_`, which are not serialised; nil and empty lists are not told apart.
- The internals of the Kubernetes codecs for `ObjectMeta`, `ListMeta` and `Time`.
- 32-bit platforms, and integer types other than `int` in ListToStrRange.
- Invalid UTF-8 and the full case table of `strings.ToLower`.
- ResolvePCITopology on relative paths; callers pass resolved absolute ones.
- The mutexes themselves: what runs under one is an atomic step. Panics of vendor calls.
- InitWithFlags, which is Init with another argument to the vendor.
- GetProcessorHandles, the other device queries, `Bdf` packing, serial normalisation: foreign calls and
  fixed-width shuffles with easy properties.
- `binding/cndev/library.go` and the other vendor wrappers, which are further clients of the same library.
- sysfs enumeration, `ldconfig` and environment lookup, memory mapping: their results are inputs here.
- `String` methods, deep copies, registration and the zigzag size function, which no message uses.
