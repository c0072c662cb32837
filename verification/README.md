# QUICHE protocol substrate, in Dafny

A model of the parts of QUICHE that turn bytes into messages and back, and of the containers they
stand on, with proofs of what they promise. Each component has two layers. The first is a
specification: functions on bytes, strings or sequences, and the theorems about them. The second is
the component in the form the C++ has it (classes with cursors, buffers, loops and carried state), with
every method proved equal to a step of the specification, so that the theorems hold of it.

What the parsers take is stated a second time, without them: as relations between bytes or text and
what they stand for (`BinaryHttpEntries`, `BinaryHttpKnownEntries`, `ChunkedTexts`, `ChunkedEnds`, `StructuredFieldBareTexts`,
`StructuredFieldMemberTexts`, `StructuredFieldListTexts`, `CapsulePayloads`), and by counting for the token
cache (`TokenAnswers`). The theorems that end in `Exactly` say that the two agree on every input, also on
what is refused.

- **Binary HTTP** (RFC 9292): the resumable request and response decoders, which keep a checkpoint
  and a carry-over buffer; the matching encoders; the known-length form. Handlers are arbitrary
  functions of what they have seen, so they may refuse at any point.
- **Chunked framing** (RFC 9112, section 7.1): the body states of `BalsaFrame`, as a machine that takes
  one byte at a time, and as the code that takes as much as it can at once.
- **Structured fields** (RFC 8941): the parser and the serializer, with lists, dictionaries, inner
  lists, parameters and all bare items; decimals are binary doubles, with every rounding of the code.
- **Capsules** (RFC 9297) on top of the **wire serialization** combinators and the 62-bit varints
  (RFC 9000, section 16); the MOQT and EBML varints beside them.
- **BTreeScheduler** against a stable priority queue, **QuicheCircularDeque** against a sequence, the
  **token cache** over all interleavings of its critical sections, and the **intrusive list** on the heap.

Some properties one might expect do not hold of the code. The code is modelled as it is, and the
exact condition is proved:

- Cutting a Binary HTTP stream between two entries of the body or the trailers and then ending it
  with an empty last call is accepted, while the same bytes in one last call are rejected
  (`BinaryHttpSplit.DecodeSplitAtEnd`; `BinaryHttpRoundTrip.OpenBodyIsAcceptedLater` is a family of
  such streams).
- A field with an empty name encodes as the terminator of its section
  (`BinaryHttpRoundTrip.RoundTripNeedsNames`, at `EmptyNameEndsTheMessage`).
- A known-length request with a host field loses its authority, and a known-length response with an
  informational final status reads back as something else (`RequestRoundTrip`, `ResponseRoundTrip`,
  at `HostLosesAuthority` and `InformationalFinalStatus`). A final status that was read is kept in sixteen
  bits, so that a value can be accepted and not come back (`AcceptedResponseComesBack`, at
  `WrappedStatusIsLost`).
- An informational response with a field too long for its encoding, that is, with a string of at least
  2^62 bytes, is refused without ending the response. If it was the first call, the framing indicator
  is lost, and nothing that is written afterwards can be decoded; otherwise it does no harm
  (`BinaryHttpRefusals.RefusalsAreHarmless`, at `LostFraming`).
- A structured value with null parameters, repeated keys, parameters on a single item inside its
  member, or decimals finer than a thousandth is written, but reads back as its normal form; nothing
  else is changed (`ListIsCanonical`, `DictionaryIsCanonical`, `ItemIsCanonical`, at `NullReadsAsTrue`,
  `RepeatedKeyReadsOnce`, `RepeatedEntryReadsOnce`, `InnerParametersMove` and `SixteenthReadsBack`).
- Decimals are not always rounded half to even, as RFC 8941 asks: the remainders 0.0005 and 0.0015 are
  compared as doubles, and the product by 1000 is rounded before it is rounded to an integer
  (`DecimalRounding.HalfEvenExactly`, at `SixteenthGoesUp` and `LowGoesDown`).
- Capsules beyond the buffer limit are taken in one fragment but not in several
  (`CapsuleFragments.EveryCuttingArrives`, at `CapsuleStream.LargeCapsule`).
- A serialization that announces no bytes succeeds even if a varint is out of range
  (`WireSerialization.SerializeIntoBuffer`, at `OutOfRangeAnnouncesNothing`); capsules are never such
  (`Capsules.FramedNotEmpty`).
- A MOQT varint written in a length chosen by the caller is read back only if the value fits into it and
  the length is not 7 (`MoqVarint.CustomLengthExactly`, at `CustomLengthLoses`).
- EBML varints with all value bits set are read, though never written, and are shorter than what
  would be written for the same value (`MoqVarint.ShortestExactly`, at `AllOnesAreRead`).

`dafny verify dfyconfig.toml` checks the whole project.

## Model

| member | source | states |
|---|---|---|
| `VarInt62.ReadEncode` | quiche/common/quiche_data_reader.cc:185-236 | reading undoes writing for every value below 2^62, whatever bytes follow |
| `VarInt62.ReadExtends` | quiche/common/quiche_data_reader.cc:185-236 | a varint that has been read stays the same when more bytes arrive |
| `VarInt62.EncodeIsShortest` | quiche/common/quiche_data_writer.cc:249-266 | whatever is read is in range, and no encoding of it is shorter than the one written; the first byte alone tells the length |
| `VarInt62.ReadStringEncode` | quiche/common/quiche_data_writer.cc:229-240 | a length-prefixed string is read back, whatever follows |
| `VarInt62.ReadStringExtends` | quiche/common/quiche_data_reader.cc:238-244 | a string that has been read stays the same when more bytes arrive |
| `VarInt62.ReadExactly` | quiche/common/quiche_data_reader.cc:185-236 | a varint is taken off the front if and only if its bytes are there: one, two, four or eight of them, the top two bits of the first telling which, and the value the rest |
| `VarInt62.ReadsNothingExactly` | quiche/common/quiche_data_reader.cc:185-236 | reading fails if and only if no varint is at the front |
| `DataReader.QuicheDataReader.ReadVarInt62` | quiche/common/quiche_data_reader.cc:185-236 | the shift-and-add reader computes the big-endian value; failure leaves the cursor in place |
| `DataReader.QuicheDataReader.ReadStringPiece` | quiche/common/quiche_data_reader.cc:122-136 | exactly the bytes asked for; failure moves the cursor to the end |
| `DataReader.QuicheDataReader.ReadStringPieceVarInt62` | quiche/common/quiche_data_reader.cc:238-244 | a missing length leaves the cursor in place, a missing string moves it to the end |
| `DataReader.QuicheDataReader.ReadUInt` | quiche/common/quiche_data_reader.cc:34-81 | the big-endian value of exactly `size` bytes |
| `DataReader.QuicheDataReader.ReadRemainingPayload` | quiche/common/quiche_data_reader.cc:284-288 | everything that is left, after which nothing is |
| `DataReader.QuicheDataReader.PeekRemainingPayload` | quiche/common/quiche_data_reader.cc:290-292 | everything that is left, which stays left |
| `DataReader.QuicheDataReader.PreviouslyReadLength` | quiche/common/quiche_data_reader.cc:298-300 | how much has been read, so that dropping it leaves what is left |
| `DataReader.QuicheDataReader.IsDoneReading` | quiche/common/quiche_data_reader.cc:327-327 | whether nothing is left |
| `DataWriter.QuicheDataWriter.WriteVarInt62` | quiche/common/quiche_data_writer.cc:156-223 | the shifted bytes are the encoding; it succeeds exactly if the value has one and it fits, and otherwise writes nothing |
| `DataWriter.QuicheDataWriter.WriteStringPieceVarInt62` | quiche/common/quiche_data_writer.cc:229-240 | succeeds exactly if length and string fit, and then they are what was written |
| `DataWriter.QuicheDataWriter.WriteBytes` | quiche/common/quiche_data_writer.cc:99-110 | appends all the bytes or none |
| `DataWriter.QuicheDataWriter.WritePadding` | quiche/common/quiche_data_writer.cc:124-131 | fills the buffer with zeros |
| `DataWriter.QuicheDataWriter.WriteUInt` | quiche/common/quiche_data_writer.cc:31-54 | appends the low bytes of the value, most significant first, or nothing |
| `MoqVarint.ReadEncode` | quiche/common/moq_varint.cc:43-74 | in both dialects reading undoes writing for every encodable value, whatever follows |
| `MoqVarint.FirstByteTellsLength` | quiche/common/moq_varint.cc:34-41 | the first byte written alone gives back the length, in both dialects |
| `MoqVarint.LengthIsLeast` | quiche/common/moq_varint.cc:76-90 | the length computed from the bit width is the least the dialect permits, the forbidden length of 7 and the reserved all-ones values left out |
| `MoqVarint.ShortestExactly` | quiche/common/moq_varint.cc:76-90 | no readable encoding is shorter than the one written, except exactly the EBML encodings whose value bits are all ones |
| `MoqVarint.NeverAllOnes` | quiche/common/moq_varint.cc:78-82 | what is written to EBML never has all value bits set |
| `MoqVarint.AllOnesAreRead` | quiche/common/moq_varint.cc:43-74 | all value bits set are read in each of the eight lengths, as a value that is written longer or not at all |
| `MoqVarint.ReadVarint` | quiche/common/moq_varint.cc:43-74 | matches the format in every case, and leaves the reader in place on failure |
| `MoqVarint.MaskedWord` | quiche/common/moq_varint.cc:62-71 | copying to the low end of a zeroed word and masking the first byte gives the big-endian value of the bits behind the length |
| `MoqVarint.TaggedWord` | quiche/common/moq_varint.cc:106-119 | copying the low bytes of the word and merging the length bits under their mask gives the format of the value modulo what fits, in both dialects |
| `MoqVarint.WriteVarintIn` | quiche/common/moq_varint.cc:92-120 | in a length chosen by the caller, succeeds exactly if the value may be written and the length fits, and then writes the value with the bits left out that have no room; only the nine-byte form can leave a part behind |
| `MoqVarint.CustomLengthExactly` | quiche/common/moq_varint.cc:156-160 | reading undoes a length chosen by the caller if and only if the value fits into it and it is not the forbidden 7 |
| `MoqVarint.CustomLengthLoses` | quiche/common/moq_varint.cc:156-160 | 200 in one byte is read as 72, and 5 in seven bytes is not read |
| `MoqVarint.WriteVarint` | quiche/common/moq_varint.cc:148-155 | succeeds exactly if the value is encodable and fits; only the nine-byte form can leave a part behind when it does not |
| `BinaryHttpSplit.DecodeSplit` | quiche/binary_http/binary_http_message.cc:730-759 | two calls that do not end the stream do what one call on both inputs does: same callbacks, section, carried-over bytes and status, from every state and for every handler, also one that refuses |
| `BinaryHttpSplit.DecodeAnyCutting` | quiche/binary_http/binary_http_message.cc:260-283 | the same for any cutting into any number of calls |
| `BinaryHttpSplit.DecodeSplitAtEnd` | quiche/binary_http/binary_http_message.cc:658-700 | for a last call the same holds if and only if the cut is not between two entries of the body or trailers with nothing after it; there the split calls announce the end and the single call is rejected |
| `BinaryHttpSplit.UnitExtends` | quiche/binary_http/binary_http_message.cc:287-345 | an entry that was complete stays the same when more bytes arrive |
| `BinaryHttpDecoder.RequestDecoder.Decode` | quiche/binary_http/binary_http_message.cc:730-759 | the checkpointing request decoder does exactly what the stream specification says, for every call; `LastCallExactly`, `DecodeTakes` and `HandlerOnlyStops` say of the bytes what that is |
| `BinaryHttpDecoder.RequestDecoder.DecodeCheckpointData` | quiche/binary_http/binary_http_message.cc:610-728 | one pass over the buffered data matches a run of the specification over the same bytes, and the checkpoint is where that run stopped |
| `BinaryHttpDecoder.DecodeFieldSection` | quiche/binary_http/binary_http_message.cc:285-315 | decodes fields up to the terminator and sets the checkpoint behind the last complete one; missing data, a refused callback and success are told apart |
| `BinaryHttpDecoder.DecodeBodyChunkSection` | quiche/binary_http/binary_http_message.cc:318-345 | decodes chunks up to the terminator and sets the checkpoint behind the last complete one |
| `BinaryHttpDecoder.DecodeField` | quiche/binary_http/binary_http_message.cc:75-86 | a field is decoded exactly if all of it is there |
| `BinaryHttpDecoder.DecodeControlData` | quiche/binary_http/binary_http_message.cc:55-71 | method, scheme, authority and path, in that order, exactly if all four are there |
| `BinaryHttpDecoder.IsValidPadding` | quiche/binary_http/binary_http_message.cc:50-53 | true exactly if every byte is zero |
| `BinaryHttpDecoder.RunBySection` | quiche/binary_http/binary_http_message.cc:610-728 | running entry by entry is the same as running section by section |
| `BinaryHttpResponseDecoder.ResponseDecoder.Decode` | quiche/binary_http/binary_http_message.cc:1257-1284 | the checkpointing response decoder does exactly what the stream specification says; `LastCallExactly`, `DecodeTakes` and `HandlerOnlyStops` say of the bytes what that is |
| `BinaryHttpResponseDecoder.ResponseDecoder.DecodeCheckpointData` | quiche/binary_http/binary_http_message.cc:1130-1255 | one pass over the buffered data matches a run of the specification over the same bytes |
| `BinaryHttpResponseDecoder.ResponseDecoder.DecodeStatusCode` | quiche/binary_http/binary_http_message.cc:1086-1125 | informational and final status codes lead where the specification leads, and others are rejected |
| `BinaryHttpEncoder.RequestEncoder.EncodeControlData` | quiche/binary_http/binary_http_message.cc:782-827 | bytes written, section moved to and error are exactly those of the encoder state machine for this call, in every section |
| `BinaryHttpEncoder.RequestEncoder.EncodeHeaders` | quiche/binary_http/binary_http_message.cc:829-843 | the state machine step for headers: bytes, section and error |
| `BinaryHttpEncoder.RequestEncoder.EncodeBodyChunks` | quiche/binary_http/binary_http_message.cc:845-863 | the state machine step for body chunks: bytes, section and error |
| `BinaryHttpEncoder.RequestEncoder.EncodeTrailers` | quiche/binary_http/binary_http_message.cc:865-875 | the state machine step for trailers: bytes, section and error |
| `BinaryHttpEncoder.ResponseEncoder.EncodeInformationalResponse` | quiche/binary_http/binary_http_message.cc:957-983 | the state machine step for an informational response: bytes, section and error; after a failure to encode the section is that of the status code, as the code has it |
| `BinaryHttpRefusals.RefusalEnds` | quiche/binary_http/binary_http_message.cc:957-983 | a refused call leaves the encoder at its end, except, exactly, an informational response with a code from 100 to 199 and a field too long, where such a response may come |
| `BinaryHttpRefusals.RefusedAreSkipped` | quiche/binary_http/binary_http_message.cc:891-983 | over every run with refused calls, the bytes are those that the accepted calls write by themselves, unless the first call of a response was so refused |
| `BinaryHttpRefusals.LostFramingIsMalformed` | quiche/binary_http/binary_http_message.cc:894-900 | after that refusal the framing indicator is never written: every further output is rejected by the decoder, for every handler, without a callback |
| `BinaryHttpRefusals.RefusalsAreHarmless` | quiche/binary_http/binary_http_message.cc:891-1048 | the output of every run, cut in any way, decodes to exactly the calls that were not refused if and only if the indicator was not lost so, or nothing was written |
| `BinaryHttpRefusals.LostFraming` | quiche/binary_http/binary_http_message.cc:957-983 | such a run: early hints with an unencodable name, then a final response that decodes to nothing but an error |
| `BinaryHttpEncoder.ResponseEncoder.EncodeHeaders` | quiche/binary_http/binary_http_message.cc:985-1010 | the state machine step for the final status and headers: bytes, section and error |
| `BinaryHttpEncoder.ResponseEncoder.EncodeBodyChunks` | quiche/binary_http/binary_http_message.cc:1012-1031 | the state machine step for body chunks: bytes, section and error |
| `BinaryHttpEncoder.ResponseEncoder.EncodeTrailers` | quiche/binary_http/binary_http_message.cc:1033-1048 | the state machine step for trailers: bytes, section and error |
| `BinaryHttpEncoder.EncodeBodyChunksImpl` | quiche/binary_http/binary_http_message.cc:210-256 | non-empty chunks each with their length, empty ones left out, and a terminator if this is the end; the buffer is always exactly large enough |
| `BinaryHttpEncoder.GetFieldSectionLength` | quiche/binary_http/binary_http_message.cc:347-367 | exactly the number of bytes the fields and the terminator take |
| `BinaryHttpEncoder.EncodeFields` | quiche/binary_http/binary_http_message.cc:369-383 | succeeds exactly if every string has a length encoding and there is room, and then writes the lower-cased names with their values and the terminator |
| `BinaryHttpEncoder.RequestEncoder.EncodeFieldSection` | quiche/binary_http/binary_http_message.cc:761-780 | the bytes of the section exactly if every string has a length encoding; the buffer is always exactly large enough |
| `BinaryHttpEncoder.ResponseEncoder.EncodeFieldSection` | quiche/binary_http/binary_http_message.cc:891-955 | framing and status code where they are due, then the section, exactly if every string has a length encoding |
| `BinaryHttpRoundTrip.StreamRoundTrip` | quiche/binary_http/binary_http_message.cc:761-1048 | for every in-order run of either encoder with non-empty field names, its output cut in any way decodes without error to exactly the callbacks asked for, each once and in order, and leaves nothing over |
| `BinaryHttpRoundTrip.WholeMessage` | quiche/binary_http/binary_http_message.cc:658-700 | given in one last call, what an encoder wrote is accepted if and only if a message may end there, and the sections left off are reported as done |
| `BinaryHttpRoundTrip.WholeMessageInPieces` | quiche/binary_http/binary_http_message.cc:730-759 | the same result for any cutting of a complete message whose last piece ends the stream |
| `BinaryHttpEntries.UnitExactly` | quiche/binary_http/binary_http_message.cc:55-86 | for every section, an entry is taken if and only if its bytes are in front, and it is reported as what they stand for; the entries are laid out byte by byte, without the decoder |
| `BinaryHttpEntries.MalformedExactly` | quiche/binary_http/binary_http_message.cc:610-728 | the stream is rejected if and only if the framing indicator is another, the status code is none, or a byte of the padding is not zero |
| `BinaryHttpEnds.DecodeTakes` | quiche/binary_http/binary_http_message.cc:610-728 | whatever the bytes, they are entries, each legal where it comes, and something behind them from which no entry can be taken; the entries are reported in order, and what is behind them is kept, or is an error if and only if it is wrong there |
| `BinaryHttpEnds.HandlerOnlyStops` | quiche/binary_http/binary_http_message.cc:285-345 | every handler is told what a willing one is told, up to and with the first callback that it refuses; only then is there an internal error, and otherwise everything is the same |
| `BinaryHttpEnds.LastCallExactly` | quiche/binary_http/binary_http_message.cc:730-759 | a last call from every state, on every input and for every handler, against the same call that is not the last: bytes left over in the middle of an entry are an error, and with none left over it succeeds exactly in the padding or where body or trailers may be left off |
| `BinaryHttpEnds.NothingFollows` | quiche/binary_http/binary_http_message.cc:730-759 | after a last call, and after one that failed, every further call is an internal error and reports nothing |
| `BinaryHttpCuts.CutAnywhere` | quiche/binary_http/binary_http_message.cc:658-700 | a complete message with its padding, stopped after any number of bytes and given in one last call, is accepted if and only if it stops after the headers, after the body or in the padding, and is invalid anywhere else; requests and responses, for every run of the encoder whose field names are not empty |
| `BinaryHttpCalls.EncoderTakesExactly` | quiche/binary_http/binary_http_message.cc:782-875 | an encoder takes all calls of a run if and only if each is sound in itself (lengths, status codes, a body part that has something in it or is the last), the first can begin the message and each can follow the one before it; the message is complete exactly with its trailers |
| `BinaryHttpCalls.CallExactly` | quiche/binary_http/binary_http_message.cc:957-1045 | in every section, a call succeeds if and only if the section takes it and it is sound, and which error it gives otherwise |
| `BinaryHttpRoundTrip.RoundTripNeedsNames` | quiche/binary_http/binary_http_message.cc:297-303 | the callbacks come back as encoded if and only if every field name is non-empty, since an empty name encodes as the terminator |
| `BinaryHttpRoundTrip.EmptyNameEndsTheMessage` | quiche/binary_http/binary_http_message.cc:369-383 | such a run: headers with one nameless field are decoded as the end of headers, body and trailers, without any field |
| `BinaryHttpRoundTrip.OpenBodyIsAcceptedLater` | quiche/binary_http/binary_http_message.cc:658-700 | every encoder run that leaves the body open is accepted if the end comes in a call of its own, and rejected if it comes with the bytes |
| `BinaryHttpKnownLength.RequestRoundTrip` | quiche/binary_http/binary_http_message.cc:136-158 | a known-length request comes back from its bytes with its padding, its authority blanked if there is a host field; it comes back unchanged if and only if there is no host field or no authority |
| `BinaryHttpKnownLength.ResponseRoundTrip` | quiche/binary_http/binary_http_message.cc:160-204 | a known-length response comes back unchanged if and only if its final status is not informational |
| `BinaryHttpKnownLength.HostLosesAuthority` | quiche/binary_http/binary_http_message.cc:529-553 | a request with an authority and a host field comes back without its authority |
| `BinaryHttpKnownLength.InformationalFinalStatus` | quiche/binary_http/binary_http_message.cc:160-204 | a padded response with final status 103 comes back as an informational response and a final status of zero |
| `BinaryHttpKnownLength.AcceptedRequestComesBack` | quiche/binary_http/binary_http_message.cc:136-158 | every byte sequence accepted as a request has a value that can be written, and that comes back if and only if it has no host field or no authority |
| `BinaryHttpKnownLength.AcceptedResponseComesBack` | quiche/binary_http/binary_http_message.cc:160-204 | every byte sequence accepted as a response has a value that can be written, and that comes back if and only if the sixteen bits kept of its final status are not informational |
| `BinaryHttpKnownEntries.RequestExactly` | quiche/binary_http/binary_http_message.cc:136-158 | a known-length request is decoded if and only if its bytes are laid out as one, with lengths that fit exactly and zero padding, and as exactly the request they hold |
| `BinaryHttpKnownEntries.ResponseExactly` | quiche/binary_http/binary_http_message.cc:160-208 | the same of a known-length response, with any number of informational responses |
| `BinaryHttpKnownLength.StatusIsReduced` | quiche/binary_http/binary_http_message.cc:160-204 | a final status that is not informational is accepted whatever its size, and reduced to sixteen bits |
| `BinaryHttpKnownLength.WrappedStatusIsLost` | quiche/binary_http/binary_http_message.cc:160-204 | such a response: the status 65639 is accepted as 103, and does not come back |
| `BinaryHttpMessage.BinaryHttpRequest.EncodedSize` | quiche/binary_http/binary_http_message.cc:567-571 | exactly the length of the serialized request |
| `BinaryHttpMessage.BinaryHttpRequest.Serialize` | quiche/binary_http/binary_http_message.cc:523-527 | fails exactly if a string has no length encoding, and otherwise gives the bytes of the request |
| `BinaryHttpMessage.BinaryHttpRequest.EncodeControlData` | quiche/binary_http/binary_http_message.cc:529-553 | writes the authority only if there is no host field |
| `BinaryHttpMessage.BinaryHttpRequest.Create` | quiche/binary_http/binary_http_message.cc:593-605 | parses exactly what the format says, and refuses everything else |
| `BinaryHttpMessage.BinaryHttpResponse.EncodedSize` | quiche/binary_http/binary_http_message.cc:497-504 | exactly the length of the serialized response |
| `BinaryHttpMessage.BinaryHttpResponse.Serialize` | quiche/binary_http/binary_http_message.cc:466-495 | fails exactly if a string has no length encoding, and otherwise gives the bytes of the response |
| `BinaryHttpMessage.BinaryHttpResponse.Create` | quiche/binary_http/binary_http_message.cc:877-889 | parses exactly what the format says, and refuses everything else |
| `BinaryHttpMessage.BinaryHttpResponse.AddInformationalResponse` | quiche/binary_http/binary_http_message.cc:451-464 | accepts exactly the codes 100 to 199, and lower-cases the names |
| `BinaryHttpMessage.Message.AddHeaderField` | quiche/binary_http/binary_http_message.cc:423-431 | appends the field with its name in lower case, and remembers a host |
| `BinaryHttpMessage.Message.DecodeFieldsAndBody` | quiche/binary_http/binary_http_message.cc:111-134 | headers, an optional body and zero padding, as the format says |
| `BinaryHttpMessage.DecodeFields` | quiche/binary_http/binary_http_message.cc:88-109 | reads a list of fields exactly if it is complete and well formed |
| `BinaryHttpMessage.EncodeList` | quiche/binary_http/binary_http_message.cc:393-407 | writes the announced length and the fields, and fails exactly if a string has no length encoding |
| `BinaryHttpMessage.EncodedFieldsSize` | quiche/binary_http/binary_http_message.cc:414-421 | the loop adds up exactly the bytes of the fields |
| `BinaryHttpMessage.Message.EncodeKnownLengthFieldsAndBody` | quiche/binary_http/binary_http_message.cc:434-445 | writes headers and body, and fails exactly if a string has no length encoding |
| `BinaryHttpMessage.BinaryHttpRequest.EncodeAsKnownLength` | quiche/binary_http/binary_http_message.cc:574-591 | writes everything but the padding, for which exactly the right room is left |
| `BinaryHttpMessage.BinaryHttpRequest.DecodeKnownLengthRequest` | quiche/binary_http/binary_http_message.cc:136-158 | agrees with the format on every input |
| `BinaryHttpMessage.BinaryHttpResponse.EncodeAsKnownLength` | quiche/binary_http/binary_http_message.cc:471-495 | writes everything but the padding, for which exactly the right room is left |
| `BinaryHttpMessage.BinaryHttpResponse.EncodeOne` | quiche/binary_http/binary_http_message.cc:512-516 | writes one informational response, and fails exactly if a string has no length encoding |
| `BinaryHttpMessage.BinaryHttpResponse.DecodeKnownLengthResponse` | quiche/binary_http/binary_http_message.cc:160-204 | agrees with the format on every input |
| `BalsaFrame.BalsaFrame.ProcessInput` | quiche/balsa/balsa_frame.cc:1153-1573 | one call does what its bytes do one after another: same state, error, callbacks, raw body and trailer, and the same number of bytes consumed; `LooseChunksExactly`, `EndExactly` and `TrailersExactly` say of the text what that is |
| `BalsaFrame.BalsaFrame.ProcessPieces` | quiche/balsa/balsa_frame.cc:1164-1532 | any cutting of the input into calls gives the same state, error and callbacks as the whole input |
| `BalsaFrame.BalsaFrame.ReadChunkLength` | quiche/balsa/balsa_frame.cc:1166-1272 | the digit loop keeps to the byte-wise machine, overflow and errors included |
| `BalsaFrame.BalsaFrame.ReadChunkExtension` | quiche/balsa/balsa_frame.cc:1274-1335 | the scan for the end of the extension keeps to the byte-wise machine, also across calls |
| `BalsaFrame.BalsaFrame.IsValidChunkExtensionCharacter` | quiche/balsa/balsa_frame.cc:1598-1624 | the look at the next byte rejects exactly the carriage returns and line feeds that stand alone under the policy |
| `BalsaFrame.BalsaFrame.ReadChunkData` | quiche/balsa/balsa_frame.cc:1337-1364 | handing on data in blocks is the same as byte by byte |
| `BalsaFrame.BalsaFrame.ReadChunkTerm` | quiche/balsa/balsa_frame.cc:1366-1410 | what comes between the data and the next chunk keeps to the byte-wise machine; `TermExactly` says of the text what that is |
| `BalsaFrame.BalsaFrame.ReadLastChunkTerm` | quiche/balsa/balsa_frame.cc:1412-1482 | the end of the last chunk, or the start of a trailer, keeps to the byte-wise machine |
| `BalsaFrame.BalsaFrame.ReadTrailer` | quiche/balsa/balsa_frame.cc:1486-1532 | the trailer ends where the framing says and is handed on in full |
| `BalsaFrame.BalsaFrame.ReadContent` | quiche/balsa/balsa_frame.cc:1545-1563 | content of a known length ends exactly there |
| `BalsaFrame.BalsaFrame.ReadUntilClose` | quiche/balsa/balsa_frame.cc:1534-1543 | everything is body until the connection closes |
| `BalsaFrame.BalsaFrame.HeaderFramingFound` | quiche/balsa/balsa_frame.h:227-250 | the shifted characters tell an empty line exactly as the byte-wise machine does |
| `BalsaFrame.BalsaFrame.HandleError` | quiche/balsa/balsa_frame.cc:658-662 | moves to the error state and tells the visitor |
| `BalsaFrame.BalsaFrame.HandleWarning` | quiche/balsa/balsa_frame.cc:653-656 | remembers the code, tells the visitor and changes nothing else |
| `ChunkedBody.RunSplit` | quiche/balsa/balsa_frame.cc:1164-1532 | a run over two inputs is the run over the second from where the first led |
| `ChunkedBody.RunConserves` | quiche/balsa/balsa_visitor_interface.h:28-35 | on every run without an error, raw body and trailer callbacks together are exactly the input consumed |
| `ChunkedBody.RunDone` | quiche/balsa/balsa_frame.cc:1153-1573 | the end of the message is announced exactly once on the way to the end, and never on the way anywhere else |
| `ChunkedBody.RunTerminal` | quiche/balsa/balsa_frame.cc:1153-1157 | after the end or an error no input changes anything |
| `ChunkedCoding.ChunkSizeIsExact` | quiche/balsa/balsa_frame.cc:1166-1272 | the chunk length is the value of its hex digits, and an error if and only if it exceeds the largest size_t |
| `ChunkedCoding.ChunkedBodyIsDecoded` | quiche/balsa/balsa_frame.cc:1164-1532 | every body encoded by section 7.1 of RFC 9112, with extensions and trailer lines, is decoded to its data and chunk lengths with one end of message and no error or warning, under every policy, and what follows is left alone |
| `ChunkedTexts.HexDigitIs` | quiche/balsa/balsa_frame.cc:1200-1225 | the value of a digit of a chunk length is its place among the sixteen, in either case |
| `ChunkedTexts.SizeEndsExactly` | quiche/balsa/balsa_frame.cc:1225-1272 | a chunk length is refused if and only if there is no digit, or what comes behind the digits is no blank, semicolon or line end |
| `ChunkedTexts.ExtensionExactly` | quiche/balsa/balsa_frame.cc:1598-1625 | an extension is refused if and only if the policy objects to a carriage return in it that something else than the line feed follows, wherever the input is cut |
| `ChunkedTexts.SizeLineExactly` | quiche/balsa/balsa_frame.cc:1166-1335 | under every policy, the line of a chunk is refused if and only if the policy objects to its line end; otherwise the chunk is announced, and its data or the end of the message come next |
| `ChunkedTexts.TermExactly` | quiche/balsa/balsa_frame.cc:1366-1410 | behind the data and up to the line feed, an error if and only if the policy disallows what is not exactly one carriage return; otherwise one warning for each stray byte |
| `ChunkedTexts.StrayDataExactly` | quiche/balsa/balsa_frame.cc:1366-1410 | for every valid chunk and every text without line feed behind its data: the error of stray data if and only if the policy disallows it and the text is not exactly one carriage return; otherwise the framer is in front of the next chunk, with exactly one warning for each stray byte |
| `ChunkedTexts.LooseChunkExactly` | quiche/balsa/balsa_frame.cc:1166-1410 | any chunk with any line ends, under every policy: an error if and only if the policy refuses its line or what is behind its data, with all callbacks up to there |
| `ChunkedTexts.LooseChunksExactly` | quiche/balsa/balsa_frame.cc:1164-1410 | any number of such chunks: the framer stops at the first that is refused and has told everything about those before it, whatever comes behind; if none is refused it is in front of the next chunk |
| `ChunkedEnds.FramingExactly` | quiche/balsa/balsa_frame.h:227-250 | the shifted characters find an empty line if and only if the text so far ends in one, and which of the two it is |
| `ChunkedEnds.EndExactly` | quiche/balsa/balsa_frame.cc:1412-1482 | behind the last chunk, the message ends with the first empty line, and fails if and only if that is a bare line feed and the policy asks for more |
| `ChunkedEnds.TrailersExactly` | quiche/balsa/balsa_frame.cc:1486-1532 | trailers end with the first empty line, under every policy, and everything up to there is handed on |
| `ChunkedEnds.ContentExactly` | quiche/balsa/balsa_frame.cc:1545-1563 | content of a known length is handed on and ends exactly with its last byte |
| `ChunkedEnds.UntilCloseExactly` | quiche/balsa/balsa_frame.cc:1534-1543 | a body that ends with the connection is handed on and goes on |
| `StructuredFieldRoundTrip.ListRoundTrip` | quiche/common/structured_headers.cc:565-573 | every list that can be written is read back in its normal form, whatever its values; decimals are doubles throughout |
| `StructuredFieldRoundTrip.DictionaryRoundTrip` | quiche/common/structured_headers.cc:666-682 | every dictionary that can be written is read back in its normal form |
| `StructuredFieldRoundTrip.TopItemRoundTrip` | quiche/common/structured_headers.cc:576-579 | every item that can be written is read back in its normal form |
| `StructuredFieldCanonical.ListIsCanonical` | quiche/common/structured_headers.cc:130-144 | a list comes back unchanged if and only if it is canonical (distinct valid keys, no nulls, decimals that are doubles of at most three places, parameters of single items on the member); every parsed list is |
| `StructuredFieldCanonical.DictionaryIsCanonical` | quiche/common/structured_headers.cc:182-205 | a dictionary comes back unchanged if and only if it is canonical; every parsed dictionary is |
| `StructuredFieldCanonical.ItemIsCanonical` | quiche/common/structured_headers.cc:147-153 | an item comes back unchanged if and only if it is canonical; every parsed item is |
| `StructuredFieldCanonical.AcceptedTextHasCanonicalForm` | quiche/common/structured_headers.cc:888-952 | whatever text is accepted has a value that can be written, and that text stands for the same value |
| `StructuredFieldNormalForms.NullReadsAsTrue` | quiche/common/structured_headers.cc:709-723 | a parameter without a value is written and reads back as true, on every item and for every key |
| `StructuredFieldNormalForms.RepeatedKeyReadsOnce` | quiche/common/structured_headers.cc:270-299 | of two parameters with the same key both are written and the second reads back |
| `StructuredFieldNormalForms.InnerParametersMove` | quiche/common/structured_headers.cc:685-694 | parameters of a single item inside its member are written and read back on the member |
| `StructuredFieldNormalForms.RepeatedEntryReadsOnce` | quiche/common/structured_headers.cc:182-205 | of two dictionary entries with the same key both are written and the second reads back |
| `StructuredFieldKeys.MergedKeys` | quiche/common/structured_headers.cc:270-299 | of keys that come more than once the first gives the place, and every key comes once |
| `StructuredFieldKeys.MergedValues` | quiche/common/structured_headers.cc:858-862 | of keys that come more than once the last gives the value |
| `StructuredFieldKeys.MergedFixed` | quiche/common/structured_headers.cc:270-299 | merging changes nothing if and only if the keys are distinct |
| `StructuredFieldItems.BareItemRoundTrip` | quiche/common/structured_headers.cc:582-662 | every bare item that can be written is read back in its normal form, whatever separator follows |
| `DecimalRounding.HalfEvenExactly` | quiche/common/structured_headers.cc:623-638 | in double arithmetic, the number of thousandths written is the one that rounding half to even gives if and only if the remainder is the double 0.0015, or is not the double 0.0005 and the rounded product by 1000 is neither a middle above the exact product nor a middle equal to it that follows an even number; it is never off by more than one |
| `DecimalRounding.SixteenthGoesUp` | quiche/common/structured_headers.cc:623-638 | 0.0625 is a double, in the middle, and written as 63 thousandths where half to even gives 62 |
| `DecimalRounding.LowGoesDown` | quiche/common/structured_headers.cc:626-629 | the double 0.0005 is above the middle and written as zero, where half to even gives one |
| `DecimalRounding.ThousandthsInRange` | quiche/common/structured_headers.cc:640-646 | every double below the limit is written with at most twelve digits in front of the point, so that the buffer is large enough |
| `DecimalRounding.ThousandthStays` | quiche/common/structured_headers.cc:616-656 | the double read for any number of thousandths below 10^15 is below the limit and is written as that number |
| `DecimalRounding.TooLargeRoundsUp` | quiche/common/structured_headers.cc:57-61 | the limit is the least double that would need thirteen digits in front of the point |
| `DecimalRounding.ConstantsAreNearest` | quiche/common/structured_headers.cc:626-632 | 0.0005, 0.0015, 0.002 and the limit are the doubles that the literals stand for |
| `Doubles.NearestIsNearest` | quiche/common/structured_headers.cc:410-412 | rounding to a double takes a number of 53 bits than which none is nearer |
| `Doubles.NearestIsDouble` | quiche/common/structured_headers.cc:410-412 | and what it takes is a double, which rounding leaves as it is |
| `StructuredFieldItems.CanonicalComesBack` | quiche/common/structured_headers.cc:582-662 | a bare item can be written and comes back as it was if and only if it is in range and, for a decimal, the double of a number of thousandths |
| `StructuredFieldItems.SixteenthReadsBack` | quiche/common/structured_headers.cc:616-656 | the double 0.0625 is written as 0.063 and reads back as the double nearest to that |
| `StructuredFieldItems.DecimalRoundTrip` | quiche/common/structured_headers.cc:616-656 | every double below the limit is written with one to three places and read back as the double nearest to what was written |
| `StructuredFieldItems.IntegerRoundTrip` | quiche/common/structured_headers.cc:609-615 | every integer of at most fifteen digits is read back |
| `StructuredFieldItems.ReadBareItemCanonical` | quiche/common/structured_headers.cc:157-179 | whatever bare item is read can be written and is not changed by it |
| `StructuredFieldItems.StringRoundTrip` | quiche/common/structured_headers.cc:583-593 | escaping is undone, for every printable string |
| `StructuredFieldItems.TokenRoundTrip` | quiche/common/structured_headers.cc:348-360 | a valid token is read to its end and no further |
| `StructuredFieldItems.ByteSequenceRoundTrip` | quiche/common/structured_headers.cc:463-501 | a byte sequence is read back, given a faithful base64 |
| `Base64.StandardIsFaithful` | quiche/common/structured_headers.cc:463-501 | standard base64 is such a faithful codec: groups of four, no colon, decoding undoes encoding |
| `StructuredFieldParser.StructuredHeaderParser.ReadList` | quiche/common/structured_headers.cc:130-144 | the loop reads exactly the grammar's list, to the end of the input; `ListExactly` says of the text what that is |
| `StructuredFieldParser.StructuredHeaderParser.ReadDictionary` | quiche/common/structured_headers.cc:182-205 | the loop reads exactly the grammar's dictionary, merging keys as they come; `DictionaryExactly` says of the text what that is |
| `StructuredFieldParser.StructuredHeaderParser.ReadItem` | quiche/common/structured_headers.cc:147-153 | reads exactly the grammar's item and leaves what is behind it |
| `StructuredFieldParser.StructuredHeaderParser.ReadBareItem` | quiche/common/structured_headers.cc:157-179 | picks the reader the grammar asks for |
| `StructuredFieldParser.StructuredHeaderParser.ReadParameters` | quiche/common/structured_headers.cc:270-299 | the loop with its set of keys reads and merges exactly the grammar's parameters |
| `StructuredFieldParser.StructuredHeaderParser.ReadInnerList` | quiche/common/structured_headers.cc:302-322 | reads exactly the grammar's inner list |
| `StructuredFieldParser.StructuredHeaderParser.ReadItemOrInnerList` | quiche/common/structured_headers.cc:256-267 | reads exactly the grammar's member |
| `StructuredFieldParser.StructuredHeaderParser.ReadNumber` | quiche/common/structured_headers.cc:363-422 | the digit loop finds the integer or decimal of the grammar, with its limits of length |
| `StructuredFieldParser.StructuredHeaderParser.ReadString` | quiche/common/structured_headers.cc:425-460 | the nested loops undo the escapes as the grammar says, and fail where it fails |
| `StructuredFieldParser.StructuredHeaderParser.ReadByteSequence` | quiche/common/structured_headers.cc:463-501 | reads to the next colon, pads and decodes |
| `StructuredFieldParser.StructuredHeaderParser.ReadKey` | quiche/common/structured_headers.cc:325-345 | reads exactly the longest key |
| `StructuredFieldParser.StructuredHeaderParser.ReadToken` | quiche/common/structured_headers.cc:348-360 | reads exactly the longest token |
| `StructuredFieldParser.StructuredHeaderParser.ReadBoolean` | quiche/common/structured_headers.cc:506-518 | reads exactly the two booleans |
| `StructuredFieldParser.StructuredHeaderParser.ConsumeChar` | quiche/common/structured_headers.cc:533-539 | takes the character exactly if it is there |
| `StructuredFieldParser.StructuredHeaderParser.FinishParsing` | quiche/common/structured_headers.cc:96-105 | true exactly if only spaces are left |
| `StructuredFieldParser.Assign` | quiche/common/structured_headers.cc:858-862 | a known key keeps its place, a new one goes to the end |
| `StructuredFieldParser.ParseList` | quiche/common/structured_headers.cc:916-921 | gives the list whose text it is by `ListExactly`, or nothing |
| `StructuredFieldParser.ParseDictionary` | quiche/common/structured_headers.cc:923-928 | gives the dictionary whose text it is by `DictionaryExactly`, or nothing |
| `StructuredFieldBareTexts.CharacterClasses` | quiche/common/structured_headers.cc:36-51 | which characters keys, tokens, strings and numbers are made of, one by one |
| `StructuredFieldBareTexts.BareItemExactly` | quiche/common/structured_headers.cc:157-179 | in front of whatever can follow an item, a bare item is read if and only if its text is there: at most fifteen digits, or twelve and three, strings with exactly the two escapes, tokens, base64 between colons, and the two booleans |
| `StructuredFieldMemberTexts.MemberExactly` | quiche/common/structured_headers.cc:256-322 | a member is read if and only if its text is there: an item, or items in parentheses with spaces between any two, and its parameters, merged by key |
| `StructuredFieldListTexts.ListExactly` | quiche/common/structured_headers.cc:916-921 | a text is parsed as a list if and only if it is the texts of its members with a comma and any white space between any two, spaces in front and white space behind |
| `StructuredFieldListTexts.DictionaryExactly` | quiche/common/structured_headers.cc:923-928 | the same of a dictionary: keys with parameters or with a member, merged by key |
| `StructuredFieldListTexts.ItemExactly` | quiche/common/structured_headers.cc:887-892 | a text is parsed as an item if and only if it is the text of the item with nothing but spaces around it |
| `StructuredFieldGaps.ListGapsDoNotMatter` | quiche/common/structured_headers.cc:130-144 | for every list that can be written and every choice of spaces and tabs before and after each comma, the text with these gaps is parsed to the same list as the canonical text |
| `StructuredFieldGaps.DictionaryGapsDoNotMatter` | quiche/common/structured_headers.cc:182-205 | the same of every dictionary that can be written |
| `StructuredFieldGaps.ListRefusesComma` | quiche/common/structured_headers.cc:137-142 | whatever is in front of it, a comma with only spaces and tabs behind it is refused at the end of a list |
| `StructuredFieldGaps.DictionaryRefusesComma` | quiche/common/structured_headers.cc:198-203 | the same of a dictionary |
| `StructuredFieldParser.ParseItem` | quiche/common/structured_headers.cc:888-893 | gives the item of the text, or nothing |
| `StructuredFieldSerializer.StructuredHeaderSerializer.WriteBareItem` | quiche/common/structured_headers.cc:582-662 | appends the text of the item exactly if it can be written |
| `StructuredFieldSerializer.StructuredHeaderSerializer.WriteDecimal` | quiche/common/structured_headers.cc:616-656 | appends the digits of the double, rounded by remainder and product as the code does, exactly if it is small enough |
| `StructuredFieldSerializer.StructuredHeaderSerializer.WriteString` | quiche/common/structured_headers.cc:583-593 | appends the quoted and escaped string exactly if it is printable |
| `StructuredFieldSerializer.StructuredHeaderSerializer.WriteParameters` | quiche/common/structured_headers.cc:709-723 | appends all parameters exactly if every key and value can be written |
| `StructuredFieldSerializer.StructuredHeaderSerializer.WriteInnerList` | quiche/common/structured_headers.cc:696-707 | appends the items separated by single spaces |
| `StructuredFieldSerializer.StructuredHeaderSerializer.WriteKey` | quiche/common/structured_headers.cc:725-732 | appends the key exactly if it is one |
| `StructuredFieldSerializer.StructuredHeaderSerializer.WriteItem` | quiche/common/structured_headers.cc:576-579 | appends item and parameters exactly if all of them can be written |
| `StructuredFieldSerializer.StructuredHeaderSerializer.WriteParameterizedMember` | quiche/common/structured_headers.cc:685-694 | appends the member exactly if all of it can be written |
| `StructuredFieldSerializer.StructuredHeaderSerializer.WriteList` | quiche/common/structured_headers.cc:565-573 | appends the members separated by commas exactly if all of them can be written |
| `StructuredFieldSerializer.StructuredHeaderSerializer.WriteDictionary` | quiche/common/structured_headers.cc:666-682 | appends the entries, true values by their key alone, exactly if all of them can be written |
| `StructuredFieldSerializer.SerializeList` | quiche/common/structured_headers.cc:942-946 | gives the text of the list, or nothing |
| `StructuredFieldSerializer.SerializeDictionary` | quiche/common/structured_headers.cc:948-952 | gives the text of the dictionary, or nothing |
| `StructuredFieldSerializer.SerializeItem` | quiche/common/structured_headers.cc:936-940 | gives the text of the item, or nothing |
| `WireSerialization.LengthIsExact` | quiche/common/wire_serialization.h:117-297 | for every nesting of fields, the length announced is the length written |
| `WireSerialization.SerializeIntoWriter` | quiche/common/wire_serialization.h:360-363 | succeeds exactly if every varint is in range and everything fits, and then appends exactly the bytes of the field |
| `WireSerialization.SerializeAll` | quiche/common/wire_serialization.h:341-352 | fields one after the other succeed exactly if all of them together fit |
| `WireSerialization.SerializeIntoBuffer` | quiche/common/wire_serialization.h:383-398 | never fails for lack of room or excess; fails exactly if a varint is out of range and the announced length is not zero |
| `WireSerialization.OutOfRangeAnnouncesNothing` | quiche/common/wire_serialization.h:383-398 | any number of varints out of range announce no length and have no bytes, so that their serialization succeeds with nothing |
| `WireSerialization.AllBytesConcat` | quiche/common/wire_serialization.h:368-375 | lengths and bytes of lists of fields add up |
| `Capsules.SerializeCapsule` | quiche/common/capsule.cc:312-418 | gives the frame of the capsule, or an error exactly if a number is out of range |
| `Capsules.FramedNotEmpty` | quiche/common/capsule.cc:304-310 | a frame always announces some length, so that a number out of range never goes unnoticed |
| `CapsuleRoundTrip.PayloadComesBack` | quiche/common/capsule.cc:499-771 | every well-formed capsule of every kind has a payload that is parsed to the same capsule |
| `CapsuleRoundTrip.ParsedIsWellFormed` | quiche/common/capsule.cc:499-771 | whatever is parsed is well formed and of the kind that was announced |
| `CapsuleRoundTrip.ComesBackExactly` | quiche/common/capsule.cc:312-418 | of the capsules that can be serialized, exactly the well-formed ones come back |
| `CapsuleStream.CapsuleComesBack` | quiche/common/capsule.cc:774-800 | a serialized well-formed capsule is read back and the bytes behind it are untouched |
| `CapsuleStream.StreamComesBack` | quiche/common/capsule.cc:459-483 | serialized capsules are delivered as they were, one after the other, to a visitor that accepts them |
| `CapsuleStream.RunSplit` | quiche/common/capsule.cc:459-483 | bytes that come later change nothing about what was delivered before |
| `CapsuleStream.AnyCutting` | quiche/common/capsule.cc:459-483 | fragments deliver the same capsules and leave the same bytes as one piece if no fragment leaves more than the limit behind, and fail if one does; they never deliver anything one piece would not |
| `CapsuleStream.LargeCapsule` | quiche/common/capsule.cc:476-481 | the limit does matter: every well-formed capsule beyond it is taken whole but refused in two parts |
| `CapsuleFragments.EveryCuttingArrives` | quiche/common/capsule.cc:459-483 | every cutting of a serialized stream delivers exactly its capsules if and only if each of them is at most one byte longer than the limit |
| `CapsuleFragments.SmallCapsulesArrive` | quiche/common/capsule.cc:459-483 | in such a stream all capsules are delivered, in order and with nothing left over, however it is cut |
| `CapsuleFragments.LargeCapsuleStops` | quiche/common/capsule.cc:476-481 | in any other stream there is a cutting at which the parser fails |
| `CapsuleStream.FeedFailed` | quiche/common/capsule.cc:459-462 | after an error nothing is ever delivered again |
| `CapsuleStream.RunProgress` | quiche/common/capsule.cc:463-475 | each capsule takes at least two bytes, so the loop ends |
| `CapsuleStream.RunSettles` | quiche/common/capsule.cc:463-475 | nothing is left in the buffer that could already have been delivered |
| `CapsuleStream.StreamHeader` | quiche/common/capsule.cc:431-444 | a stream header and the data that follow it are the serialized capsule |
| `CapsuleParser.CapsuleParser.IngestCapsuleFragment` | quiche/common/capsule.cc:459-483 | the buffer loop does what the stream specification says; the visitor hears of a failure exactly once |
| `CapsuleParser.CapsuleParser.IngestAll` | quiche/common/capsule.cc:459-483 | fragments given one after another come to what one run over all the bytes comes to, as long as none leaves too much behind |
| `CapsuleParser.CapsuleParser.AttemptParseCapsule` | quiche/common/capsule.cc:774-800 | tells an incomplete capsule, a bad or refused one and a delivered one apart, and gives its exact length |
| `CapsuleParser.CapsuleParser.ErrorIfThereIsRemainingBufferedData` | quiche/common/capsule.cc:811-818 | an error at the end of the stream exactly if something is left over |
| `CapsuleParser.ParseCapsulePayload` | quiche/common/capsule.cc:499-771 | the cursor-based parser agrees with the format for every kind and every payload; `PayloadExactly` says of the bytes what that is |
| `CapsuleParser.ReadAllPrefixes` | quiche/common/capsule.cc:520-607 | the loop reads exactly the list of prefixes of the format, or fails; `PrefixesExactly` says of the bytes what that is |
| `CapsulePayloads.PrefixesExactly` | quiche/common/capsule.cc:520-607 | an address payload is accepted if and only if it is a concatenation of entries, each a varint, the byte 4 or 6, four or sixteen address bytes and a length of at most eight times that, and the result is exactly these in order |
| `CapsulePayloads.RangesExactly` | quiche/common/capsule.cc:608-653 | the same of a route payload: the byte 4 or 6, two addresses of that family and a protocol byte |
| `CapsulePayloads.PayloadExactly` | quiche/common/capsule.cc:499-771 | for each of the seventeen kinds, by its number, a payload is accepted if and only if its bytes are laid out as the kind demands, and as exactly what they hold |
| `CapsulePayloads.NextCapsuleExactly` | quiche/common/capsule.cc:774-800 | a capsule is taken off the front if and only if a frame with its payload is there |
| `CapsulePayloads.NoCapsuleExactly` | quiche/common/capsule.cc:774-800 | the parser waits if and only if no frame is complete, and gives up if and only if a frame is complete whose payload is that of no capsule |
| `CapsulePayloads.RunTakes` | quiche/common/capsule.cc:459-483 | whatever the bytes, the capsules in front are delivered in order up to the first that the visitor refuses, otherwise up to an incomplete frame, which is kept, or to a frame of no capsule, which is an error |
| `CapsuleParser.ReadAllRanges` | quiche/common/capsule.cc:608-653 | the loop reads exactly the list of ranges of the format, or fails |
| `CapsuleParser.ReadWebTransportStreamId` | quiche/common/capsule.cc:486-497 | reads a stream identifier exactly if it is complete and fits 32 bits |
| `CapsuleParser.CapsuleParser.ReportParseFailure` | quiche/common/capsule.cc:802-809 | tells the visitor only the first time |
| `BTreeScheduler.BTreeScheduler.PopFront` | quiche/common/btree_scheduler.h:263-274 | returns the best stream of the abstract queue and removes it |
| `BTreeScheduler.BTreeScheduler.PopAll` | quiche/common/btree_scheduler.h:263-274 | popping until nothing is left gives the streams in exactly the order in which the abstract queue is drained |
| `BTreeScheduler.BTreeScheduler.constructor` | quiche/common/btree_scheduler.h:148-148 | nothing registered, nothing scheduled, and the counter at zero |
| `BTreeScheduler.BTreeScheduler.Schedule` | quiche/common/btree_scheduler.h:277-294 | appends to the abstract queue, unless the stream is there already or unknown; the counter goes down by one exactly if it appends |
| `BTreeScheduler.BTreeScheduler.Deschedule` | quiche/common/btree_scheduler.h:306-324 | removes from the abstract queue, or tells why not |
| `BTreeScheduler.BTreeScheduler.UpdatePriority` | quiche/common/btree_scheduler.h:215-241 | changes the priority and keeps the place by age |
| `BTreeScheduler.BTreeScheduler.Register` | quiche/common/btree_scheduler.h:169-176 | adds a stream exactly if it is not there |
| `BTreeScheduler.BTreeScheduler.Unregister` | quiche/common/btree_scheduler.h:195-212 | removes the stream from both containers |
| `BTreeScheduler.BTreeScheduler.DescheduleStream` | quiche/common/btree_scheduler.h:179-192 | never fails: the slot of a scheduled stream is always found under its key, and it is its own |
| `BTreeScheduler.BTreeScheduler.ShouldYield` | quiche/common/btree_scheduler.h:244-260 | what the abstract queue says about yielding, for scheduled and unscheduled streams |
| `BTreeScheduler.BTreeScheduler.NumScheduledInPriorityRange` | quiche/common/btree_scheduler.h:152-166 | the number of scheduled streams with a priority in the closed range |
| `BTreeScheduler.BTreeScheduler.GetPriorityFor` | quiche/common/btree_scheduler.h:65-71 | the priority the stream was given last |
| `BTreeScheduler.BTreeScheduler.IsScheduledStream` | quiche/common/btree_scheduler.h:297-303 | whether the stream is in the abstract queue |
| `BTreeScheduler.BTreeScheduler.NumScheduled` | quiche/common/btree_scheduler.h:51-51 | the length of the abstract queue |
| `BTreeScheduler.BTreeScheduler.HasScheduled` | quiche/common/btree_scheduler.h:49-49 | whether the abstract queue is not empty |
| `BTreeScheduler.BTreeScheduler.HasRegistered` | quiche/common/btree_scheduler.h:47-47 | whether any stream is registered |
| `BTreeScheduler.FrontIsBest` | quiche/common/btree_scheduler.h:93-117 | the first entry of the ordered map belongs to the best stream of the queue |
| `BTreeScheduler.RemoveInv` | quiche/common/btree_scheduler.h:179-192 | taking an entry out keeps map and schedule in step |
| `BTreeScheduler.AddInv` | quiche/common/btree_scheduler.h:277-294 | so does scheduling, with a number below all others |
| `BTreeScheduler.ReplaceInv` | quiche/common/btree_scheduler.h:229-240 | so does a change of priority, which keeps the number |
| `Scheduling.BestGoesFirst` | quiche/common/btree_scheduler.h:34-39 | the best stream has the highest priority and is the oldest of those that have it |
| `Scheduling.DrainIsOrdered` | quiche/common/btree_scheduler.h:34-39 | taking streams out one by one gives them by decreasing priority, and first come first out among equals |
| `Scheduling.DrainIsAll` | quiche/common/btree_scheduler.h:263-274 | and gives all of them |
| `Scheduling.YieldIsExact` | quiche/common/btree_scheduler.h:60-62 | a stream need not yield if and only if it would be the next once it is scheduled |
| `CircularDeque.QuicheCircularDeque.EmplaceBack` | quiche/common/quiche_circular_deque.h:421-426 | appends to the sequence, at the cost of one push of the cost machine; the cell it writes held no element |
| `CircularDeque.QuicheCircularDeque.EmplaceFront` | quiche/common/quiche_circular_deque.h:410-415 | prepends to the sequence, at the cost of one push of the cost machine; the cell it writes held no element |
| `CircularDeque.QuicheCircularDeque.PopFront` | quiche/common/quiche_circular_deque.h:428-433 | drops the first element, which was alive |
| `CircularDeque.QuicheCircularDeque.PopBack` | quiche/common/quiche_circular_deque.h:444-449 | drops the last element, which was alive |
| `CircularDeque.QuicheCircularDeque.PopFrontN` | quiche/common/quiche_circular_deque.h:435-442 | drops as many of the first as there are, and says how many |
| `CircularDeque.QuicheCircularDeque.PopBackN` | quiche/common/quiche_circular_deque.h:451-458 | drops as many of the last as there are, and says how many |
| `CircularDeque.QuicheCircularDeque.Relocate` | quiche/common/quiche_circular_deque.h:597-625 | keeps contents and order, wrapped or not; as many moves as there are elements, and no live cell left in the old buffer |
| `CircularDeque.QuicheCircularDeque.ExpandForPush` | quiche/common/quiche_circular_deque.h:582-595 | makes room for one more, moving all elements exactly if there is none, and keeps what pushes have paid ahead of what was moved |
| `CircularDeque.QuicheCircularDeque.Reserve` | quiche/common/quiche_circular_deque.h:382-386 | keeps the contents and never lowers the capacity; what it moves counts as asked for |
| `CircularDeque.QuicheCircularDeque.ShrinkToFit` | quiche/common/quiche_circular_deque.h:461-467 | keeps the contents and a headroom of a quarter, at least three; what it moves counts as asked for |
| `CircularDeque.QuicheCircularDeque.Resize` | quiche/common/quiche_circular_deque.h:669-685 | truncates or extends the sequence, at the cost of one such step of the cost machine |
| `CircularDeque.QuicheCircularDeque.Clear` | quiche/common/quiche_circular_deque.h:573-576 | leaves nothing alive, and the capacity as it was |
| `CircularDeque.QuicheCircularDeque.At` | quiche/common/quiche_circular_deque.h:323-330 | the element at a position of the sequence |
| `CircularDeque.QuicheCircularDeque.Front` | quiche/common/quiche_circular_deque.h:340-343 | the first element of the sequence |
| `CircularDeque.QuicheCircularDeque.Back` | quiche/common/quiche_circular_deque.h:349-352 | the last element of the sequence, also across the wrap |
| `CircularDeque.QuicheCircularDeque.IsEmpty` | quiche/common/quiche_circular_deque.h:391-391 | whether the sequence is empty |
| `CircularDeque.QuicheCircularDeque.MoveRange` | quiche/common/quiche_circular_deque.h:641-651 | moves live elements to empty cells, counting each, leaves empty cells behind, and touches no others |
| `CircularDeque.QuicheCircularDeque.Extend` | quiche/common/quiche_circular_deque.h:669-676 | appends copies, and charges the pushes with the one move that makes room for all of them |
| `CircularDeque.QuicheCircularDeque.DestroyRange` | quiche/common/quiche_circular_deque.h:687-697 | destroys exactly the live elements between two places of the ring |
| `CircularDeque.PushesPayForMoves` | quiche/common/quiche_circular_deque.h:382-467 | over every run of pushes, removals, resizes, reservations and shrinkings from an empty deque, at most six elements are moved for each one pushed, requests aside |
| `TokenCache.EveryRun` | quiche/blind_sign_auth/cached_blind_sign_auth.cc:27-133 | over every interleaving of requests, responses, callbacks and clearing: tokens are conserved, answers have the right number of fresh tokens, and no callback runs twice |
| `TokenCache.NoTokenTwice` | quiche/blind_sign_auth/cached_blind_sign_auth.cc:109-121 | a token received once is handed out at most once, in one answer |
| `TokenCache.QuiescentExactly` | quiche/blind_sign_auth/cached_blind_sign_auth.cc:68-107 | in every reachable state, no response and no callback would change anything if and only if every request is answered |
| `TokenCache.EveryRequestAnswered` | quiche/blind_sign_auth/cached_blind_sign_auth.cc:68-107 | when no response and no callback would change anything, every request has had its callback run exactly once, with a proper result |
| `TokenAnswers.FreshPlaces` | quiche/blind_sign_auth/cached_blind_sign_auth.cc:123-133 | removing the expired tokens leaves exactly those that last, in order |
| `TokenAnswers.RequestIsAnswered` | quiche/blind_sign_auth/cached_blind_sign_auth.cc:27-66 | a request out of range is refused; any other is answered at once if and only if at least as many tokens of the cache last, with the first of these in order, and waits otherwise; the cache keeps all others that last |
| `TokenAnswers.ResponseIsAnswer` | quiche/blind_sign_auth/cached_blind_sign_auth.cc:68-107 | a response with tokens answers its request with tokens if and only if at least as many last of those in the cache and in the response, with the first of these in order; the cache keeps all others that last, and no other request changes |
| `TokenAnswers.AnswerStays` | quiche/blind_sign_auth/cached_blind_sign_auth.cc:93-107 | over every run, an answer does not change any more, and it counts as delivered exactly if its callback runs |
| `TokenAnswers.HandedOutLater` | quiche/blind_sign_auth/cached_blind_sign_auth.cc:68-121 | over every run, what is handed out after a time was in the cache at that time or has come since; after the cache was cleared, nothing that came before is handed out |
| `TokenCache.GetTokensKeeps` | quiche/blind_sign_auth/cached_blind_sign_auth.cc:27-66 | a request under the lock keeps all of that |
| `TokenCache.HandleResponseKeeps` | quiche/blind_sign_auth/cached_blind_sign_auth.cc:68-107 | so does a response |
| `TokenCache.FreshOrExpired` | quiche/blind_sign_auth/cached_blind_sign_auth.cc:123-133 | removing expired tokens splits them exactly into those kept and those dropped |
| `TokenCache.CachedBlindSignAuth.RemoveExpiredTokens` | quiche/blind_sign_auth/cached_blind_sign_auth.cc:123-133 | one turn of the deque keeps exactly the tokens good for five more minutes, in order |
| `TokenCache.CachedBlindSignAuth.CreateOutputTokens` | quiche/blind_sign_auth/cached_blind_sign_auth.cc:109-121 | takes the oldest tokens |
| `TokenCache.CachedBlindSignAuth.GetTokensLocked` | quiche/blind_sign_auth/cached_blind_sign_auth.cc:27-53 | on the circular deque, one step of the machine; `RequestIsAnswered` says by counting what that is |
| `TokenCache.CachedBlindSignAuth.HandleGetTokensResponse` | quiche/blind_sign_auth/cached_blind_sign_auth.cc:68-107 | on the circular deque, one step of the machine; `ResponseIsAnswer` says by counting what that is |
| `TokenCache.CachedBlindSignAuth.ClearCache` | quiche/blind_sign_auth/cached_blind_sign_auth.h:48-51 | on the circular deque, one step of the machine |
| `IntrusiveList.Splice` | quiche/common/quiche_intrusive_list.h:242-256 | moves a range of links between two rings or within one: both are rings afterwards, with exactly the elements moved |
| `IntrusiveList.InsertLink` | quiche/common/quiche_intrusive_list.h:259-267 | the ring with one more link at that place |
| `IntrusiveList.Erase` | quiche/common/quiche_intrusive_list.h:198-210 | the ring without the link, which is unlinked; returns what came after it |
| `IntrusiveList.Attach` | quiche/common/quiche_intrusive_list.h:251-255 | opens a ring and closes it over a chain |
| `IntrusiveList.Detach` | quiche/common/quiche_intrusive_list.h:247-249 | closes a ring over a part, which stays a chain |
| `IntrusiveList.QuicheIntrusiveList.Swap` | quiche/common/quiche_intrusive_list.h:229-234 | the two lists exchange their elements |
| `IntrusiveList.QuicheIntrusiveList.SpliceAll` | quiche/common/quiche_intrusive_list.h:236-238 | takes over all elements of the other list, in front, and leaves it empty |
| `IntrusiveList.QuicheIntrusiveList.PushBack` | quiche/common/quiche_intrusive_list.h:196-196 | appends the element |
| `IntrusiveList.QuicheIntrusiveList.PushFront` | quiche/common/quiche_intrusive_list.h:195-195 | prepends the element |
| `IntrusiveList.QuicheIntrusiveList.PopFront` | quiche/common/quiche_intrusive_list.h:215-215 | drops the first element |
| `IntrusiveList.QuicheIntrusiveList.PopBack` | quiche/common/quiche_intrusive_list.h:216-216 | drops the last element |
| `IntrusiveList.QuicheIntrusiveList.EraseElement` | quiche/common/quiche_intrusive_list.h:198-210 | drops that element and unlinks it |
| `IntrusiveList.QuicheIntrusiveList.Size` | quiche/common/quiche_intrusive_list.h:184-184 | the walk over the links counts the elements |
| `IntrusiveList.QuicheIntrusiveList.Clear` | quiche/common/quiche_intrusive_list.h:226-228 | the list is empty; the links of its elements stay as they are |
| `IntrusiveList.QuicheIntrusiveList.IsEmpty` | quiche/common/quiche_intrusive_list.h:182-182 | whether the list is empty |

## Left out

- Binary HTTP: the debug strings and equality operators; that total lengths stay within `uint64_t` and
  `size_t`; views into the caller's buffer are modelled as values. Requests and responses share one
  type of section.
- Balsa header phase: the first line, header lines and header editing. The framer starts where the
  headers have been read.
- Balsa chunk extensions: the policy that requires a semicolon, and the callback that hands out the
  text of an extension, both of which depend on where the input is cut.
- Balsa trailers: their parsing into headers; the trailer text is handed on, but not its fields.
- ChunkedCoding.ChunkedBodyIsDecoded: the lines of a body end with carriage return and line feed, and a trailer line is any text without them, since trailers are not parsed.
- DecimalRounding.HalfEvenExactly: infinities, not-a-number and the sign of zero are not modelled, and every number from 2^53 on counts as a double; the serializer refuses all of these but zero, which it writes without a sign.
- StructuredFieldItems.DecimalRoundTrip: formatting and parsing of the digits are modelled exactly, not the library functions that do it.
- StructuredFieldItems.ByteSequenceRoundTrip: base64 is a parameter. The code's own library also accepts white space and a dot as padding when it reads.
- StructuredFieldSerializer.SerializeList: a member that is not an inner list holds exactly one item, which the serializer demands with a fatal check.
- Structured fields of draft 09, with their second grammar.
- Capsules.SerializeCapsule: an unknown capsule must not carry the number of a known kind, which the accessors of the source demand.
- Capsule text forms; IP addresses are their packed bytes, without conversion to text.
- CapsuleParser.CapsuleParser.IngestCapsuleFragment: the visitor does not call back into the parser, and keeps copies of what it is shown.
- BTreeScheduler.BTreeScheduler.Schedule: to schedule a stream anew, the sequence counter must be above its least value, which it is for the first 2^31 times, since the overflow of `int` has no meaning in the source. The ordered map and the hash map are a sorted sequence and a map.
- CircularDeque.QuicheCircularDeque.Resize: a deque without a buffer can only grow, since the source takes a remainder by the length of the buffer.
- Deque allocators, iterators, assignment, move and swap; destruction is modelled as emptying the cell.
- CircularDeque.PushesPayForMoves: what a caller moves by asking for another capacity is counted, but not charged to pushes.
- TokenCache.CachedBlindSignAuth.GetTokensLocked: the lock is the atomicity of a step. The service that issues tokens is any service that answers a request at most once; its protocol and cryptography are not modelled.
- IntrusiveList.Splice: the place to move to must not lie within the range that is moved. The rings are given to the methods as ghost arguments, since the operations of the source are static.
- Intrusive list iterators and the move constructor.
- WriteVarInt62WithForcedLength and the reader and writer in host byte order.
- The QUIC tunnel, Oblivious HTTP, blind signing, logging, flags and platform code.
