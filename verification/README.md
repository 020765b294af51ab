# dial9 trace format: verified model

A Dafny 4.11 model of the dial9 binary trace format and of the code around it, with
proofs. Check it with `dafny verify dfyconfig.toml`.

A dial9 trace is a stream of frames without length prefixes, so one wrong length breaks
everything behind it. The encoder keeps a schema registry, two intern pools, a bitset of
fast ids, a slot cache and a timestamp base; each decoder keeps the mirror image and must
stay in step. The model covers that pair, the range slicer that rewrites traces byte by
byte, two small concurrent protocols and the density timeline of the viewer.

## How it is built

| file | what it models |
|---|---|
| Bytes, Leb128, Utf8, View | little-endian integers, ULEB128 (DWARF version 5, section 7.6), UTF-8, reading a buffer by offset |
| Values, Frames | the wire grammar of values and frames as recursive parsers, and what the encoder writes |
| ByteLayout | tags, lengths and byte orders of the format as numbers |
| Machine, Pulls, Playback | the decoder as a state machine: one step, one pull, a whole run, the events of a run |
| History | what a decoder remembers, told from the frames it gave out |
| Callback | the callback path on any stream, and exactly where it differs from pulling frames |
| EncoderSpec, Coupling, Resume, FastResume | the encoder's operations as functions of its state, the invariant that couples it to a decoder, resuming |
| Recorder | a recorder of four lists that tells from the operations alone what every decoder gives back; the encoder refines it |
| Sink, Registry, EncoderClass | the writer, the schema registry and the encoder as objects, proved against EncoderSpec |
| Failures | when a reader does not just fail: the panics of the zero-copy decoder, the exceptions of decode.js |
| ValueDecode, RefDecode, Codec, DecoderClass | the owned and the zero-copy decoding loops, the lazy iterators, the decoder object |
| JsDecoder, ValueSizes | decode.js, and fieldSize of slice.js |
| Scan, Slice, Slicer | slice.js |
| EndToEnd | encoder and decoder objects together, and the slot protocol under them |
| Limits, Nested | inputs on which the code does not do what the format says, and exactly when it does |
| TypeSlot, Debounce, Density | the derive macro's slot protocol, the dump trigger, the viewer's density columns |

One grammar serves all readers. A `Dialect` says who reads: `Owned` and `Ref` are the two
Rust decoders, `Js` is decode.js, and `Strict` accepts only what the encoder promises to
write. Each place where the readers differ is a branch on the dialect. Round trips are
proved for `Strict`; separate lemmas show that whatever `Strict` accepts, the other three
accept with the same result.

Text stays bytes in a value. `Replaced` is what the owned decoder makes of ill-formed text,
`Cut` what `to_owned` makes of a string map that is not UTF-8. A float is its 64 bits.

Where code and documentation disagree, the model follows the code:

- The crate's description of the format says that a decoder must accept a schema that is
  declared again unchanged. The Rust decoder merges annotations into the registered schema
  (decoder.rs:375-389), so it refuses an unchanged declaration exactly when annotations
  were merged: `Resume.FastTypeAfterResume`. `FastResume.ResumeWithFastTypes` says exactly
  when a resumed recording still decodes as a whole.
- encoder.rs:286 says `bytes_written` includes the file header. The counter starts behind
  it (encoder.rs:187-191): `EncoderClass.Encoder.constructor`.
- `write_event` writes a packed delta even for a schema without timestamps:
  `Limits.EventReadsBackIff`.
- The dynamic path writes a value by its own kind, whatever the schema declares, so U16 and
  U32 fields never come back and U8 fields only below 128: `Limits.DynamicFieldIff`.
- Inside a list or map the Rust decoders ignore a tag's optional bit (types.rs:520) while
  decode.js expects a presence byte. `Nested` says exactly for which elements the two agree
  all the same. Encoder output never holds such a tag.
- A fuzz target asks that decoding never panics (fuzz_decode.rs:5). The zero-copy decoder
  does: it adds up a string map's lengths unchecked and then slices (types.rs:712-724), so
  it panics exactly on a map whose count and lengths can all be read while the last value
  runs past the end: `RefDecode.DecodeRef`, `Failures.CutMapExample`. The owned decoder,
  which the fuzz target runs, does not: `Failures.OwnedIsQuiet`.
- `try_for_each_event` adds the delta without the overflow check that `next_frame_ref`
  makes (decoder.rs:566, codec.rs:499). A release build delivers the event with its time cut
  to 64 bits and goes on, which is what the model does; a build with overflow checks panics
  there. `Callback.FeedAgreesIff` says exactly on which streams the two paths differ,
  `Callback.GoesOnIf` how, and `Callback.OverflowExample` gives the smallest one.

## Model

| member | source | states |
|---|---|---|
| Leb128.EncodeUnsigned | dial9-trace-format/src/leb128.rs:6-17 | the buffer loop writes the ULEB128 encoding of any u64 in at most 10 bytes |
| Leb128.DecodeUnsigned | dial9-trace-format/src/leb128.rs:20-36 | the shift loop gives the low 64 bits of the encoded number and its length, and fails when it does not end within 10 bytes or the input |
| Leb128.RoundTripU64 | dial9-trace-format/src/leb128.rs:6-36 | decoding the encoding of any u64 before any suffix returns the value and exactly that suffix |
| Leb128.Minimal | dial9-trace-format/src/leb128.rs:6-17 | no byte string that decodes to a number is shorter than the number's encoding |
| ValueSizes.DecodeULEB128 | dial9-trace-format/js/decode.js:19-29 | the unbounded JavaScript loop gives the exact number and its length, at any offset |
| Utf8.LossyIsValid | dial9-trace-format/src/types.rs:414-425 | the replacement for ill-formed text is always well-formed |
| Utf8.ValidIsText | dial9-trace-format/src/types.rs:414-425 | a text is well-formed exactly if it is the concatenation of the encodings of some Unicode scalar values, computed from the code points |
| Utf8.LossyKeepsExactlyValid | dial9-trace-format/src/types.rs:414-425 | replacement changes a text exactly when it is not well-formed |
| Utf8.ScalarIsKept | dial9-trace-format/src/types.rs:414-425 | replacement keeps an encoded scalar value in front as it is, whatever follows |
| Utf8.PieceIsReplaced | dial9-trace-format/src/types.rs:414-425 | where none stands in front, one U+FFFD takes the place of the longest piece that could begin one, and of at least one byte |
| Utf8.EmojiExample | dial9-trace-format/src/types.rs:414-425 | the four bytes of U+1F600 are well-formed text, which replacement keeps |
| ByteLayout.LebExamples | dial9-trace-format/src/leb128.rs:6-17 | the encodings that the DWARF standard gives as examples |
| ByteLayout.EightBytes | dial9-trace-format/src/codec.rs:218-220 | a u64 is eight bytes, the lowest first |
| ByteLayout.HeaderBytes | dial9-trace-format/src/codec.rs:20-22 | the header is 54 52 43 00 01 |
| ByteLayout.SchemaBytes | dial9-trace-format/src/codec.rs:159-178 | a schema frame byte by byte: tag 1, id, name, flag, the number of fields, and each field's name and type |
| ByteLayout.EventBytes | dial9-trace-format/src/encoder.rs:417-425 | an event frame's six bytes in front of its fields: tag 2, id, a delta of three bytes |
| ByteLayout.StringPoolBytes | dial9-trace-format/src/codec.rs:200-209 | a string pool frame with one entry: tag 3, one, id, length, text |
| ByteLayout.StackPoolBytes | dial9-trace-format/src/codec.rs:211-222 | a stack pool frame with one entry: tag 4, one, id, and the addresses as in a stack field |
| ByteLayout.ResetBytes | dial9-trace-format/src/types.rs:950-953 | a timestamp reset is tag 5 and eight bytes |
| ByteLayout.AnnotationBytes | dial9-trace-format/src/codec.rs:224-247 | an annotation frame with one annotation: tag 6, the id as a varint, one, field index, key, value |
| ByteLayout.ValueBytes | dial9-trace-format/src/types.rs:269-288 | the number of each kind of value and what is written behind it |
| ByteLayout.FieldBytesOf | dial9-trace-format/src/types.rs:294-332 | fields of type 11, 12 and 13 have their fixed width, and the bit 80 puts a presence byte in front |
| ByteLayout.AnyVersion | dial9-trace-format/src/codec.rs:20-22 | a header is its four bytes and any fifth one |
| ByteLayout.AnyNonZeroBool | dial9-trace-format/src/types.rs:413-413 | every reader takes any non-zero byte for true |
| ByteLayout.AnyNonZeroPresence | dial9-trace-format/js/decode.js:35-41 | every reader takes any non-zero presence byte for a field that is there |
| Values.ParseValueLocal | dial9-trace-format/src/types.rs:403-523 | a value of any depth is decided by the bytes it consumes: any suffix may follow, in every reader |
| Values.ValueRoundTrip | dial9-trace-format/src/types.rs:343-523 | every encodable value of any nesting depth, decoded under its own tag before any suffix, gives itself and exactly that suffix |
| Values.FieldRoundTrip | dial9-trace-format/src/types.rs:1058-1113 | the same for event fields, with presence bytes and fixed-width U8, U16 and U32 |
| Values.DynamicFieldFits | dial9-trace-format/src/types.rs:1058-1073 | a value whose kind is the declared one is written alike by the dynamic and the derived path |
| Values.RefParsesValidTexts | dial9-trace-format/src/types.rs:653-766 | zero-copy decoding of a value succeeds exactly when owned decoding does and all text in it is UTF-8, with the same bytes consumed |
| Values.StrictFieldIsCommon | dial9-trace-format/js/decode.js:33-119 | a field within the encoder's promises reads the same, to the same end, in Rust and in JavaScript |
| Frames.ParseFrameLocal | dial9-trace-format/src/codec.rs:261-438 | decoding a frame is stable under appending any suffix and consumes a prefix of its input |
| Frames.FrameOf | dial9-trace-format/src/codec.rs:154-248 | every schema, pool, reset and annotation frame is read back from its encoding in any decoder state, before any suffix |
| Frames.EventOf | dial9-trace-format/src/encoder.rs:417-425 | an event frame is read back with its values and its base plus delta, before any suffix |
| Frames.StrictFrameIsCommon | dial9-trace-format/js/decode.js:144-187 | a frame within the encoder's promises reads the same in every decoder |
| Frames.RefFrameIsOwnedFrame | dial9-trace-format/src/codec.rs:443-566 | the zero-copy frame decoder succeeds exactly when the owned one does and all text payloads are UTF-8, with the same frame and end |
| Machine.StepLocal | dial9-trace-format/src/decoder.rs:316-395 | every step consumes at least one byte and at most all, and is decided by what it consumes |
| Machine.RunConcat | dial9-trace-format/src/decoder.rs:316-395 | decoding a completely decodable prefix and then the rest is decoding the whole |
| Machine.Concatenation | dial9-trace-format/src/decoder.rs:253-273 | if A decodes completely and B starts with a header, A then B gives A's frames and then B's, and ends in B's state alone |
| Machine.StrictRunIsCommon | dial9-trace-format/js/decode.js:144-187 | on any stream within the encoder's promises all decoders give the same frames, ids and absolute timestamps and end in the same state |
| Machine.RefRunIsOwnedRun | dial9-trace-format/src/decoder.rs:408-487 | the zero-copy decoder reads a stream to its end exactly when the owned one does and all text payloads are UTF-8, with the same frames and state |
| Machine.StrictRunDeclaresOnce | dial9-trace-format/src/schema.rs:177-189 | between two headers every event's id was declared before it and no id is declared twice |
| Machine.StrictRunGrowsPools | dial9-trace-format/src/decoder.rs:355-369 | between two headers each pool grows only by entries with a new id and a new content |
| Machine.GrowsOnce | dial9-trace-format/src/decoder.rs:355-369 | in a pool that grows so, nothing is emitted twice or rebound, and every id resolves to its content from then on |
| History.LastPooledWins | dial9-trace-format/src/decoder.rs:355-369 | between two headers, on any stream: an id stands for the string or stack that was pooled last under it, text that is not UTF-8 left out in Rust, and for what it stood for before if there is none |
| History.SchemasKnown | dial9-trace-format/src/decoder.rs:375-389 | between two headers, on any stream: the Rust decoders keep the first entry of an id and add up all annotations since, decode.js has the last entry and the annotations of the last frame of them |
| History.RefusesIff | dial9-trace-format/src/schema.rs:177-189 | the Rust decoders refuse a frame exactly if it declares a known id differently, annotations included, and decode.js refuses none; registry, pools and base stay |
| Machine.CompleteLeavesNothing | dial9-trace-format/src/decoder.rs:316-328 | a run that ends well has read every byte |
| Playback.PlayedBytesDecode | dial9-trace-format/src/codec.rs:154-248 | the bytes of frames that a frame-level decoder accepts are decoded completely, to those frames and that state |
| Coupling.EnsureRegisteredSound | dial9-trace-format/src/encoder.rs:313-347 | registering keeps the encoder's invariant and a coupled decoder reads the schema as intended, in each of the outcomes |
| Coupling.EventSound | dial9-trace-format/src/types.rs:948-960 | for any timestamp, backwards or far ahead too, a coupled decoder gets exactly the event, with the timestamp and the values that were passed in, and both bases are that timestamp |
| Coupling.RegisterFastSound | dial9-trace-format/src/encoder.rs:486-502 | claiming a fast id keeps invariant and coupling |
| Coupling.ResolveDynamicSound | dial9-trace-format/src/encoder.rs:461-481 | the slow path keeps invariant and coupling and gives the id under which the type's schema is registered |
| Coupling.CacheSlotAt | dial9-trace-format/src/encoder.rs:474-479 | growing and storing changes one slot of the cache and leaves the others as they were |
| Coupling.ResolveIdSound | dial9-trace-format/src/encoder.rs:430-447 | whichever path finds the wire id, it is registered with the type's own schema; only a type without a fast slot that is not known yet needs a free dynamic id |
| Coupling.WriteDerivedSound | dial9-trace-format/src/encoder.rs:430-455 | writing a derived event keeps invariant and coupling and is read back as logged |
| Coupling.WriteEventSound | dial9-trace-format/src/encoder.rs:384-426 | writing a dynamic event does so too, also when it is refused after the schema was written |
| Coupling.InternStringSound | dial9-trace-format/src/encoder.rs:505-520 | interning a string keeps the two pools inverse to each other; only a new string needs a free id |
| Coupling.InternStackSound | dial9-trace-format/src/encoder.rs:528-545 | interning a stack does so too |
| Coupling.ResetSound | dial9-trace-format/src/encoder.rs:293-306 | a reset couples a fresh encoder to the state a mid-stream header leaves |
| Coupling.OpSound | dial9-trace-format/src/encoder.rs:293-545 | every operation keeps the invariant, and what it wrote plays back as logged on a coupled decoder |
| Coupling.RunSound | dial9-trace-format/src/encoder.rs:313-545 | every run of well-formed operations from a coupled state plays back as logged and ends coupled |
| Coupling.EncoderDecoderCoupling | dial9-trace-format/src/encoder.rs:313-545 | after any run of well-formed operations every decoder consumes all bytes exactly, gives the logged frames with their absolute timestamps, and holds the encoder's registry, pool contents and base; which frames those are is `Recorder.DecodersTell` |
| Recorder.WriteRecords | dial9-trace-format/src/encoder.rs:430-455 | a `write` succeeds unless a type without a fast slot has a name that a different schema took; then the log is the schema's frames, if its id was unknown, and exactly the event with the time and values passed in, written as a delta of at most 2^24 - 1 or else behind a reset to that time, which is the base then |
| Recorder.WriteEventRecords | dial9-trace-format/src/encoder.rs:384-426 | the same for `write_event`, which succeeds exactly if the name is not taken, the first value is a u64 and the others are as many as the schema's fields |
| Recorder.OpNoted | dial9-trace-format/src/encoder.rs:293-545 | every operation records the frames and gives the answer, id or error, of a recorder that keeps only lists in order of first appearance |
| Recorder.RunIsTold | dial9-trace-format/src/encoder.rs:293-545 | so does every run: its log is computed from its operations alone |
| Recorder.DecodersTell | dial9-trace-format/src/encoder.rs:293-545 | after any run of well-formed operations every decoder reads all bytes and gives exactly that: every event at the time it was given, ids from 256 up or the claimed slot, each schema and pool entry once |
| Coupling.WireIdDiscipline | dial9-trace-format/src/encoder.rs:430-502 | over any run without a reset each event's id was declared by exactly one schema frame; at its end dynamic ids are 256 up, fast ids are exactly the marked bits and cached slots equal the hash map's answer |
| Coupling.InterningDiscipline | dial9-trace-format/src/encoder.rs:505-545 | over any run without a reset each content is emitted at most once and every entry resolves to its content at the end |
| Coupling.HandleStaysGood | dial9-trace-format/src/encoder.rs:505-520 | an interned handle resolves to its string at every later point before a reset, equal content gives the same handle and different content another |
| Coupling.StackHandleStaysGood | dial9-trace-format/src/encoder.rs:528-545 | the same for stack handles |
| Resume.InvertPool | dial9-trace-format/src/encoder.rs:236-252 | inverting a decoded pool, in whatever order the map is walked, gives an inverse map and the least counter past all ids |
| Resume.NameIds | dial9-trace-format/src/encoder.rs:254-257 | every registered schema is found under its name, in whatever order the registry is walked |
| Resume.ResumedIsAlike | dial9-trace-format/src/encoder.rs:229-274 | without fast types a resumed encoder has the original's registry, counters, pools, names and base and meets the invariant |
| Resume.ResolvesAsByName | dial9-trace-format/src/encoder.rs:457-481 | a type without a fast slot resolves, by cache, type id or name, to the same id, frames and state as registering its schema by name |
| Resume.RunSame | dial9-trace-format/src/encoder.rs:293-545 | two alike encoders write the same frames on any run, resets included, and stay alike |
| Resume.ResumeIsTransparent | dial9-trace-format/src/decoder.rs:275-289 | without fast slots, decoding a prefix and going on with into_encoder writes byte for byte what the original would have written, resets included, and both parts decode to the whole log |
| Resume.FastTypeAfterResume | dial9-trace-format/src/encoder.rs:271-272 | a resumed encoder declares a fast type again, which the Rust decoder accepts exactly when the type has no annotations |
| FastResume.DeclaredAgain | dial9-trace-format/src/decoder.rs:301-311 | a second declaration of a schema without annotations is accepted by both Rust decoders and decode.js and changes nothing |
| FastResume.JsDeclaredAgain | dial9-trace-format/js/decode.js:196-216 | decode.js accepts a second declaration of a schema with annotations too, and has them again behind it |
| FastResume.ResumeWithFastTypes | dial9-trace-format/src/encoder.rs:229-274 | with fast slots, prefix and continuation decode completely in decode.js always, and in the Rust decoders exactly if before the next reset no type is written that has annotations and that the stream declares under a fast slot; then they give what both encoders were told and end in the encoder's state |
| Registry.SchemaRegistry.Clear | dial9-trace-format/src/schema.rs:171-174 | clearing leaves no schema and the first dynamic id |
| Registry.SchemaRegistry.Register | dial9-trace-format/src/schema.rs:177-189 | accepts exactly a new id or the same entry, and changes nothing but a new id |
| Registry.SchemaRegistry.NextTypeId | dial9-trace-format/src/schema.rs:200-204 | hands out consecutive ids |
| Registry.SchemaRegistry.SyncNextId | dial9-trace-format/src/schema.rs:210-217 | the counter ends past every registered id and no further than needed |
| Sink.CountingWriter.WriteAll | dial9-trace-format/src/types.rs:912-916 | appends, and counts every byte behind what the buffer held at the start |
| Sink.EncodeInto | dial9-trace-format/src/types.rs:343-400 | appends the encoding of a value of any depth |
| Sink.FieldInto | dial9-trace-format/src/types.rs:1058-1073 | appends a field with its presence byte, by the value's kind or at the declared fixed width |
| Sink.SchemaInto | dial9-trace-format/src/codec.rs:159-178 | appends a schema frame |
| Sink.AnnotationsInto | dial9-trace-format/src/codec.rs:224-248 | appends an annotation frame |
| Sink.StringPoolInto | dial9-trace-format/src/codec.rs:200-209 | appends a string pool frame |
| Sink.StackPoolInto | dial9-trace-format/src/codec.rs:211-222 | appends a stack pool frame |
| EncoderClass.Encoder.constructor | dial9-trace-format/src/encoder.rs:187-200 | a new encoder has written the header, uncounted, and nothing else |
| EncoderClass.Encoder.FromDecoder | dial9-trace-format/src/encoder.rs:229-274 | the object built from a decoder's state is a resumed encoder that has written nothing |
| EncoderClass.Encoder.ResetTo | dial9-trace-format/src/encoder.rs:293-306 | the old buffer is handed back unchanged, the new one holds a header behind its content, everything else starts over |
| EncoderClass.Encoder.EnsureRegistered | dial9-trace-format/src/encoder.rs:313-347 | state, bytes and result are the specification's, in all branches |
| EncoderClass.Encoder.EncodeTimestampDelta | dial9-trace-format/src/types.rs:948-960 | a reset is written exactly when time went backwards or too far, and the base always advances |
| EncoderClass.Encoder.WriteEvent | dial9-trace-format/src/encoder.rs:384-426 | state, bytes and result are the specification's, in all branches, and the base becomes the first value exactly if it succeeds |
| EncoderClass.Encoder.RegisterFastId | dial9-trace-format/src/encoder.rs:486-502 | the same for claiming a fast id |
| EncoderClass.Encoder.ResolveDynamicWireId | dial9-trace-format/src/encoder.rs:461-481 | the same for the slow path, the slot cache grown and filled |
| EncoderClass.Encoder.Write | dial9-trace-format/src/encoder.rs:430-455 | the same for a derived event, over bitset, cache and slow path; the base becomes the time passed in |
| EncoderClass.Encoder.InternString | dial9-trace-format/src/encoder.rs:505-520 | the same for interning a string |
| EncoderClass.Encoder.InternStackFrames | dial9-trace-format/src/encoder.rs:528-545 | the same for interning a stack |
| EncoderClass.Record | dial9-trace-format/src/encoder.rs:579-583 | the buffers that an encoder object hands out over any run, laid end to end, are the bytes of the coupling theorem |
| ValueDecode.DecodeOwned | dial9-trace-format/src/types.rs:403-523 | the owned loops give the grammar's value, its ill-formed text replaced, and its remainder |
| ValueDecode.ReplacedKeepsExactlyValid | dial9-trace-format/src/types.rs:414-425 | owned decoding shows a value unchanged exactly when all text in it is UTF-8 |
| RefDecode.StackFrameIter.Next | dial9-trace-format/src/types.rs:813-827 | hands out the packed addresses one by one and ends with them |
| RefDecode.StringMapIter.Next | dial9-trace-format/src/types.rs:848-870 | hands out the pairs up to the first that is cut off or not UTF-8 |
| RefDecode.CollectFrames | dial9-trace-format/src/types.rs:777-777 | collecting gives every address the bytes hold, up to the count |
| RefDecode.CollectPairs | dial9-trace-format/src/types.rs:780-784 | collecting gives the longest readable prefix of the pairs |
| RefDecode.SizeHintExactIff | dial9-trace-format/src/types.rs:867-872 | at any point of the iteration, the remaining count that the iterator announces is its real length exactly when all pairs to come are UTF-8 |
| RefDecode.DecodeRef | dial9-trace-format/src/types.rs:653-766 | the zero-copy loops succeed where the grammar does, consume the same bytes, and convert to its value up to cut string maps; they panic exactly where, at some depth, a string map's last value alone is cut off |
| RefDecode.SkipTexts | dial9-trace-format/src/types.rs:712-724 | the unchecked scan over a string map's lengths ends where its pairs end, fails when a length cannot be read, and panics exactly when all can but the last value ends behind the data |
| Failures.LoudFrameFails | dial9-trace-format/src/codec.rs:443-484 | no reader panics or throws on a frame that the grammar accepts |
| Failures.OwnedIsQuiet | dial9-trace-format/src/codec.rs:261-438 | the owned decoder panics on no bytes at all, whatever schemas it knows |
| Failures.UnknownThrows | dial9-trace-format/js/decode.js:144-187 | decode.js throws at a frame tag, a type id or a field type that it does not know |
| Failures.CutMapExample | dial9-trace-format/src/types.rs:712-724 | a twelve-byte map on which the zero-copy decoder panics and the owned one fails |
| Failures.CutMapEvent | dial9-trace-format/src/codec.rs:486-531 | an event of any schema with that map as its one field makes the zero-copy frame decoder panic |
| RefDecode.CutKeepsExactlyValid | dial9-trace-format/src/types.rs:768-793 | to_owned loses nothing exactly when every string map is UTF-8 |
| RefDecode.OwnedAndRefAgree | dial9-trace-format/src/types.rs:653-793 | one value decoded both ways: success, length and, exactly when its string maps are UTF-8, converted value agree |
| Codec.DecodeSchemaFrame | dial9-trace-format/src/codec.rs:281-319 | the loop over positions reads the grammar's schema frame |
| Codec.DecodeEventFrame | dial9-trace-format/src/codec.rs:321-368 | the same for an event frame, with the checked timestamp addition |
| Codec.DecodeStringPoolFrame | dial9-trace-format/src/codec.rs:370-385 | the same for a string pool frame |
| Codec.DecodeStackPoolFrame | dial9-trace-format/src/codec.rs:387-408 | the same for a stack pool frame |
| Codec.DecodeAnnotationsFrame | dial9-trace-format/src/codec.rs:410-438 | the same for an annotation frame |
| Codec.DecodeFrame | dial9-trace-format/src/codec.rs:261-279 | decode_frame gives the grammar's frame, its ill-formed text replaced, and the bytes consumed |
| Codec.DecodeStackPoolFrameRef | dial9-trace-format/src/codec.rs:550-566 | packed stacks unpack to the grammar's entries |
| Codec.DecodeFrameRef | dial9-trace-format/src/codec.rs:443-484 | decode_frame_ref stands for the grammar's frame and ends where it ends; it panics exactly on an event in which the readable fields lead to a cut-off string map |
| Codec.FramesAgree | dial9-trace-format/src/codec.rs:261-566 | whenever the owned decoder reads a frame whose text is UTF-8 the zero-copy one reads the same bytes, and its converted frame is the owned one exactly when the string maps are UTF-8 |
| Pulls.RunIsPulls | dial9-trace-format/src/decoder.rs:316-395 | pulling frames until none comes gives the run's frames, state and remainder |
| Pulls.DeliveriesAreTheEvents | dial9-trace-format/src/decoder.rs:522-660 | what the callback path is to deliver is exactly the event frames of the frame-by-frame run, in order |
| Pulls.DeliveredInContext | dial9-trace-format/src/decoder.rs:650-658 | each comes with the schema and the pools as they stand behind a part of the stream that holds exactly the events delivered before it |
| DecoderClass.Decoder.constructor | dial9-trace-format/src/decoder.rs:220-232 | a new decoder stands behind the header in a fresh state |
| DecoderClass.Decoder.TryConsumeResetHeader | dial9-trace-format/src/decoder.rs:263-273 | consumes five bytes and forgets everything exactly when a header stands here |
| DecoderClass.Decoder.RegisterSchema | dial9-trace-format/src/decoder.rs:301-311 | the cache takes the schema even when the registry refuses it |
| DecoderClass.Decoder.NextFrame | dial9-trace-format/src/decoder.rs:316-395 | gives the next visible frame, moves position and state as the machine does, and tells the end from a refusal |
| DecoderClass.Decoder.NextFrameRef | dial9-trace-format/src/decoder.rs:408-487 | the same for the zero-copy path, and exactly when it panics |
| DecoderClass.Decoder.DecodeAll | dial9-trace-format/src/decoder.rs:397-404 | gives the frames of the whole run and ends in its state |
| DecoderClass.Decoder.IntoEncoder | dial9-trace-format/src/decoder.rs:281-289 | hands over to a resumed encoder |
| DecoderClass.Decoder.TryForEachEvent | dial9-trace-format/src/decoder.rs:522-693 | on every stream, overflowing timestamps and panics included: unless the callback refuses an event, it delivers exactly what the recursive specification `Callback.Feed` says, with equal fields, schema and pools, and gives its verdict, state and position; a refusal leaves exactly the rest still to be delivered |
| Callback.FeedAgreesIff | dial9-trace-format/src/decoder.rs:522-693 | that specification gives the events, verdict, state and position of pulling frames with next_frame_ref, exactly unless the pulled run stops at an event whose time does not fit 64 bits and whose fields can be read or make the decoder panic |
| Callback.GoesOnIf | dial9-trace-format/src/decoder.rs:566-566 | where they differ so, the event is delivered behind all earlier ones, with its fields and its time cut to 64 bits, and reading goes on behind it from that time; or the callback path panics where next_frame_ref just stops |
| Callback.OverflowStops | dial9-trace-format/src/codec.rs:499-499 | a run that comes to an event whose timestamp does not fit 64 bits stops right there |
| Callback.OverflowExample | dial9-trace-format/src/decoder.rs:566-566 | a six-byte event on which next_frame_ref stops, while the callback path reads to the end and is given the event with the time 0 |
| JsDecoder.DecodeFieldValue | dial9-trace-format/js/decode.js:33-119 | the offset-based loops give the grammar's value and its size, or a RangeError where it fails, or another exception exactly where they come to an unknown field type |
| JsDecoder.TraceDecoder.NextFrame | dial9-trace-format/js/decode.js:144-187 | gives the next visible frame and moves the decoder's state as the machine does; at a cut-off frame it gives null and moves to the end, and it throws exactly at an unknown frame tag, type id or field type |
| JsDecoder.TraceDecoder.DecodeAll | dial9-trace-format/js/decode.js:189-194 | gives the frames of the whole run, or none at all exactly when the run comes to a frame that throws; its state is the run's when it reads to the end |
| JsDecoder.SizeOfDecoded | dial9-trace-format/js/slice.js:251-311 | fieldSize equals the byte count decodeFieldValue reports, for every field type, offset and buffer on which decoding succeeds |
| ValueSizes.FieldSize | dial9-trace-format/js/slice.js:251-311 | fieldSize gives the grammar's length of any decodable field, nested containers and optionals included |
| EndToEnd.RecordAndDecode | dial9-trace-format/src/encoder.rs:156-178 | for any run on an encoder object, the owned decoder and decode.js give what the operations alone tell, and the callback path completes with the events in it |
| EndToEnd.ResumeObjects | dial9-trace-format/src/decoder.rs:275-289 | an encoder object made from the decoder object continues byte for byte like the original, over resets too, and the whole decodes to the whole log |
| Scan.ScanSchema | dial9-trace-format/js/slice.js:109-128 | finds a schema frame's id, layout and end |
| Scan.ScanFields | dial9-trace-format/js/slice.js:146-149 | finds the end of an event's fields |
| Scan.ScanStringPool | dial9-trace-format/js/slice.js:194-203 | finds the end of a string pool frame |
| Scan.ScanStackPool | dial9-trace-format/js/slice.js:205-214 | finds the end of a stack pool frame |
| Scan.ScanAnnotations | dial9-trace-format/js/slice.js:225-240 | finds the end of an annotation frame |
| Slice.CopyFrame | dial9-trace-format/js/slice.js:109-128 | a frame other than an event or a reset, copied verbatim, reads the same under the output's base |
| Slice.RebasedEvent | dial9-trace-format/js/slice.js:178-186 | an event with a rewritten delta reads as the same event at the output's base plus the new delta |
| Slice.KeptTwice | dial9-trace-format/js/slice.js:151-163 | keeping by one range and then by another is keeping by their intersection |
| Slicer.KeepTurn | dial9-trace-format/js/slice.js:165-190 | a kept event keeps the loop's invariant: both decoders' bases become its timestamp |
| Slicer.KeepEvent | dial9-trace-format/js/slice.js:168-186 | writes a reset in front exactly when the delta does not fit, and fails exactly where one is needed that cannot hold the timestamp |
| Slicer.SliceTrace | dial9-trace-format/js/slice.js:43-248 | for every complete trace there is a result exactly when the version is in range and every step can be written, and then it decodes completely, with the same headers, schemas and pools, to the frames at exactly those places that are not a timestamped event outside the two bounds, inclusive, of a name other than SymbolTableEntry, SegmentMetadataEvent and ClockSyncEvent, in order and unchanged; the slice of a trace that the strictest reader accepts is again one |
| Slicer.SlicePicks | dial9-trace-format/js/slice.js:28-32 | so a frame of the trace is in its slice, for any decoder that reads it, exactly unless it is such an event |
| Slicer.FittingIsWritable | dial9-trace-format/js/slice.js:168-176 | every step can be written if the kept timestamps are below 2^64 |
| Slicer.StrictSliceIsCommon | dial9-trace-format/js/slice.js:43-248 | a slice that the strictest reader accepts reads the same in both Rust decoders and in decode.js |
| Slicer.FindMinTs | dial9-trace-format/js/slice.js:339-435 | for every complete trace gives the timestamp of the first timestamped event, or fails when there is none |
| Slicer.FirstIsFirst | dial9-trace-format/js/slice.js:339-435 | that is the event in front of which no event has a timestamp |
| Slicer.SliceWith | dial9-trace-format/js/slice.js:43-58 | relative slicing is absolute slicing with both bounds shifted by the first timestamp, with the same exact condition for a result, and fails when there is no timestamp |
| Slicer.SliceTwice | dial9-trace-format/js/slice.js:43-58 | slicing a slice decodes to what slicing once by the intersection decodes to |
| Limits.EventReadsBackIff | dial9-trace-format/src/encoder.rs:417-425 | an event that write_event wrote reads back, in any decoder, exactly when its schema has timestamps |
| Limits.StrayDelta | dial9-trace-format/src/encoder.rs:417-425 | without timestamps and fields the three delta bytes are left over as garbage, in any decoder |
| Limits.DynamicFieldIff | dial9-trace-format/src/types.rs:1058-1073 | a field that write_event wrote comes back, in any decoder and for every declared type, exactly when the value is of the declared kind, or an absent one in an optional field, or a varint below 128 in a U8 field |
| Nested.PlainElementAgrees | dial9-trace-format/js/decode.js:91-115 | an element whose tags carry no optional bit and whose varints end within ten bytes below 2^64, at any depth, is read alike by the Rust decoder and decode.js or by neither |
| Nested.OptionalElementDiffers | dial9-trace-format/src/types.rs:520-520 | an element with the optional bit, other than a varint or a container, is never read alike |
| Nested.OptionalVarintIff | dial9-trace-format/src/types.rs:520-520 | an optional varint is read alike exactly when its presence byte is 0x80 + 2k and a number k * (2^64 - 2) / 127 of at most nine bytes follows |
| Nested.ScalarElementIff | dial9-trace-format/js/decode.js:33-42 | the exact condition for every element that is no container |
| Nested.SecondSolution | dial9-trace-format/src/types.rs:520-520 | an optional varint with a presence byte other than 0x80 that is read alike |
| Nested.OptionalContainerNeeds | dial9-trace-format/src/types.rs:520-520 | a container with the optional bit can be read alike only if the five bytes behind its tag are equal and not zero, so with 16843009 elements or a multiple |
| Nested.SmallContainersDiffer | dial9-trace-format/src/types.rs:520-520 | so no container with the optional bit of less than 33686023 bytes is read alike |
| Nested.NestedOptionalsDiffer | dial9-trace-format/src/types.rs:520-520 | small elements on which the Rust decoders and decode.js read different values or lengths |
| Limits.ListReadsBackIff | dial9-trace-format/src/types.rs:285-327 | a list comes back, in any decoder, exactly when it holds no absent value |
| Limits.NameReadsBackIff | dial9-trace-format/src/codec.rs:166-168 | a name comes back, in any decoder, exactly when its length fits 16 bits |
| Limits.BlobReadsBackIff | dial9-trace-format/src/types.rs:348-356 | a text or byte payload comes back exactly when its length fits 32 bits |
| EndToEnd.OutputCanBeSliced | dial9-trace-format/js/slice.js:78-86 | whatever the encoder wrote decodes completely and meets everything slicing by any range asks for |
| EndToEnd.RecordAndSlice | dial9-trace-format/js/slice.js:43-248 | for any run on an encoder object and any range there is a slice, and the Rust decoders and decode.js all read it as the kept part of the log |
| TypeSlot.SlotsAreUnique | dial9-trace-format-derive/src/lib.rs:130-152 | for every interleaving, stale relaxed loads included, calls for one type return one non-zero slot and calls for different types different slots |
| TypeSlot.ThreeMovesReturn | dial9-trace-format-derive/src/lib.rs:130-152 | no call waits for another: whatever the others do, three moves of its own make it return |
| TypeSlot.TakenSlotIsReturned | dial9-trace-format-derive/src/lib.rs:139-147 | once a slot is taken every call for its type that has not returned comes back with it within three more moves of its own, and the slot stays |
| TypeSlot.TakenInOneMove | dial9-trace-format-derive/src/lib.rs:130-152 | in every reachable state a load that is not stale and sees a slot returns it in one move without drawing, any other load goes on to draw, and a compare-exchange that finds the slot taken returns it in one move; nothing else changes |
| TypeSlot.LostSwapWastesOneNumber | dial9-trace-format-derive/src/lib.rs:139-149 | a number drawn by a lost compare-exchange is no type's slot, and the counter moves by one for each draw |
| Debounce.AcceptedAreSpaced | dial9-tokio-telemetry/src/dump.rs:254-263 | for every interleaving of clock reads and lock acquisitions any two accepted requests are at least the window apart |
| Debounce.RateIsBounded | dial9-tokio-telemetry/src/dump.rs:173-184 | at most span / window + 1 requests are accepted in any span |
| Debounce.CoalescesIntoLatest | dial9-tokio-telemetry/src/dump.rs:257-262 | a coalesced trigger names the latest accepted request, and a request is accepted exactly when that one is a window or more behind |
| Debounce.SentOnce | dial9-tokio-telemetry/src/dump.rs:318-366 | for every interleaving of calls, attached pairs, awaits, drops and the worker's end nothing is sent twice, only accepted requests are sent, each with all its pairs, and while the worker is there what was sent is exactly what was accepted and ended |
| Debounce.AcceptedIsSent | dial9-tokio-telemetry/src/dump.rs:340-347 | once every run was awaited or dropped, exactly the accepted requests were sent |
| DumpRuns.DumpTrigger.Request | dial9-tokio-telemetry/src/dump.rs:247-279 | the object decides as the gate's state machine does and sends nothing yet |
| DumpRuns.DumpRun.WithMetadata | dial9-tokio-telemetry/src/dump.rs:323-328 | attaches a pair to a request that was not sent yet |
| DumpRuns.DumpRun.Dispatch | dial9-tokio-telemetry/src/dump.rs:332-338 | sends what the run owes, once |
| DumpRuns.DumpRun.IntoFuture | dial9-tokio-telemetry/src/dump.rs:353-365 | awaiting sends once and resolves to the receipt, the stop or the coalescing error |
| DumpRuns.WholeLife | dial9-tokio-telemetry/src/dump.rs:247-366 | a run that the trigger accepts is sent exactly once with all its metadata, whether awaited or dropped; one that it folds never, and the gate moves exactly when it accepts |
| DumpRuns.Schedule | dial9-tokio-telemetry/src/dump.rs:247-366 | any schedule of calls, pairs, awaits, drops and closing carried out on a shared trigger, its run objects and the channel sends exactly what the protocol sends |
| EndToEnd.ClaimedSlotsAreOk | dial9-trace-format/src/lib.rs:41-51 | slots claimed through any interleaving of type_slot calls meet what the coupling theorem asks of them |
| Density.SpanEnd | dial9-viewer/ui/heatmap.js:35-40 | a span always ends behind its start |
| Density.SpanLength | dial9-viewer/ui/heatmap.js:35-40 | it ends where the segment does, or lasts one second where that is missing or not behind the start |
| Density.AccumulateDensity | dial9-viewer/ui/heatmap.js:98-121 | every column gets exactly the bytes that fall within it, and the columns sum to the bytes within the window |
| Density.ColumnsConserve | dial9-viewer/ui/heatmap.js:98-121 | columns filled so sum to rate times overlap with the window, over all segments |
| Density.FloorColumn | dial9-viewer/ui/heatmap.js:109-110 | the floor finds the column whose edges enclose a time |
| Density.CoveringWindow | dial9-viewer/ui/heatmap.js:171-174 | a window covering all spans holds the total size |
| Density.SortSorts | dial9-viewer/ui/heatmap.js:132-132 | sorting by start is a sorted permutation that loses no bytes |
| Density.SortIsStable | dial9-viewer/ui/heatmap.js:132-132 | segments that start together keep their order |
| Density.TileEnd | dial9-viewer/ui/heatmap.js:134-139 | a tile ends at the next start exactly if that lies strictly between the segment's start and its end, and in every other case where the segment ends |
| Density.TileStaysWithin | dial9-viewer/ui/heatmap.js:131-141 | a tile never reaches past its segment, so its bytes fall only where the segment is, and one that no other segment starts in stays as it is |
| Density.TilesApartIff | dial9-viewer/ui/heatmap.js:131-141 | tiles are pairwise disjoint exactly when starts are distinct and each segment has a positive length or room for the minimum span |
| Density.OvershootsTileApart | dial9-viewer/ui/heatmap.js:131-141 | segments with different starts that end behind them get pairwise disjoint spans, however they overshot each other |
| Density.TilingConserves | dial9-viewer/ui/heatmap.js:131-141 | tiling keeps start, size and true end of every segment, and a covering window still sums to the total size |

## Left out

- Hash maps are mathematical maps, walked in any order; hashing, allocation and capacity choices are not part of this model.
- Id counters stop with an error one before they would overflow, where the Rust code panics or wraps.
- Clock readings and dump ids are parameters; a call of try_for_each_event's callback is a pure predicate on the event.
- I/O errors and partial writes: the sink is a buffer that never fails.
- The serde layer (de.rs and the serde impls in types.rs) is not part of this model.
- RawEncoder: it only forwards bytes; what appending pre-encoded batches does is `Machine.Concatenation`.
- write_string_pool and write_stack_pool, which write entries that the encoder's pools do not know.
- Gzip, files and the command line of the JavaScript tools.
- Pooled values of an event are resolved to their content by decode.js; the model keeps the ids and the pools.
- decode.js text is kept as bytes: TextDecoder's replacement and its removal of a byte order mark are not modelled, nor that equal keys of a string map overwrite each other in its result.
- decode.js keys an event's values by field name, so equal field names overwrite each other; the model keeps them in order.
- Call-stack depth: next_frame and nextFrame recurse once per header and reset in a row, and value decoding once per nesting level. In decode.js a stack overflow is itself a RangeError and is taken for a cut-off frame.
- Views into a larger ArrayBuffer: a text length past the view but inside the buffer is a failed read here.
- JsDecoder.TraceDecoder.NextFrame: does not say what part of a frame that it could not read was applied.
- The decoder's schema cache is a map, not a dense vector of options.
- Coupling.EncoderDecoderCoupling: asks of the caller what write_event does not check, that value kinds match the schema and the schema has timestamps; `Limits` shows what happens otherwise.
- Slicer.SliceTrace: says nothing about traces that do not decode completely.
- Resume.ResumeIsTransparent: byte equality is for types without fast slots; with them a resumed encoder declares them again, and `FastResume.ResumeWithFastTypes` says exactly when the whole decodes.
- Nested.OptionalContainerNeeds: a necessary condition only; which of the containers with that many elements are read alike is not said.
- TypeSlot.SlotsAreUnique: fewer than 65535 calls, so that the u16 counter cannot wrap.
- Density: real arithmetic, without the rounding of floats; the sort is a stable insertion sort in place of the built-in one.
- segmentGaps, segmentsOverlapping, groupByHost, bootTransitions, densityColor and the page around them would only add easy members.
- The dump worker behind the channel, receipts and the lookback windows.
- Config, storage, credentials, profiling and everything else in the repository.
