# go-wav: a verified model of its writer, its reader and its sample conversion

This project models the parts of go-wav that decide whether a WAVE file is right: the header writer with its in-place
patching and RIFF to RF64 upgrade, the streaming encoder, the chunk-walking header parser, the streaming decoder with
its one-shot forms, the sample conversion kernels with the float quantiser, and the bext codec. It proves that these
agree with each other. Code that changes state step by step is modelled as methods with loops over arrays and as
classes (`Encoder`, `Decoder`, `Sink`, `Source`), each proved against a specification function; the laws are lemmas
about those functions.

## How it is laid out

One module per file. Where a file is named after a class its module has a name of its own (`Encoder.dfy` declares
`Encoding`, `Decoder.dfy` `Decoding`, `Sink.dfy` `Sinks`, `Source.dfy` `Sources`, `Config.dfy` `EncoderConfig`,
`Quantize.dfy` `Quantizer`, `Bext.dfy` `BextCodec`, `RoundTrip.dfy` `RoundTrips`, `Reencode.dfy` `Reencoding`).

- `Wire`, `Types`, `Chunks`, `Arith`: bytes and bounded integers (a store into one proves that nothing wraps; where the
  program relies on wrapping it is written out as `Wrap64`), the shared vocabulary, chunk identifiers, division facts.
- `Format`, `HeaderWriter`, `HeaderReader`, `WalkLaws`, `HeaderLaws`: the fmt chunk, the header as a function of its
  patchable fields (`Head`), the parser as a function of the bytes that remain (`Parse`), and the laws between them.
- `Sink`, `Config`, `Encoder`, `EncoderRuns`: the byte store an encoder writes to, configuration and container choice,
  the encoder state machine, and whole runs from Reset to Close.
- `Binary64`, `Quantize`, `Companded`, `Samples`, `Conversion`: IEEE 754 binary64 with round to nearest even (section
  4.3.1 of IEEE 754-2008), the quantiser, G.711 expansion (section 3 of ITU-T G.711), the meaning of converting one
  sample, and every loop that converts many.
- `Source`, `Streams`, `Decoder`, `DecoderRuns`, `OneShot`: a cursor over bytes that returns short reads of its own
  choosing, what a byte string decodes to (`Decoded`), the decoder state machine, any interleaving of reads and seeks,
  and the one-shot decoders.
- `Bext`, `RoundTrip`, `Reencode`: the bext printer and parser (section 2.3 of EBU Tech 3285), the end-to-end theorems,
  and writing again what was read.
- `FmtLaws`, `BextLaws`, `ParseLaws`, `Anatomy`, `Modes`, `FloatLaws`, `SampleLaws`, `DecodedLaws`: what the functions
  the rest is stated with mean in the end, in literal bytes, offsets, bounds and numbers: the spelling of every header
  field, what each byte read stands for, what each RF64 mode and each conversion option leads to, the value of every
  float pattern and the bytes and value of every converted sample.

## The main results

1. `RoundTrips.WholeRun` with `StreamInItsSink`: whatever an encoder run accepts, in any split into writes and at any
   position of a sink whose stamp spares the stream, parses back and decodes to the same audio, format, container and
   metadata. `RoundTrips.ExactUnlessOdd` says exactly when the pad byte shows.
2. `EncoderRuns.Session` with `FinishableExactly`: on a sink that does not fail a run succeeds exactly when its audio
   can be described, and otherwise ends with the one error the audio's length calls for; a stream stamped at Close
   carries the header a writer who knew everything from the start would emit.
3. `Decoding.Decoder` (`Read`, `SeekToFrame`, `WriteTo`) and `DecoderRuns.Play`: every interleaving delivers exactly the
   window of the converted audio at the last frame reached. `OneShot.DecodeInterleavedLimit` and
   `OneShot.DecodeInterleavedBytes` yield the same bytes: `OneShot.DrainsAgree` sets the three side by side.
4. `Quantizer.QuantizeIsIdeal`: in binary64 arithmetic with its roundings modelled, the quantiser is the ideal one, and
   `Quantizer.FusedIsTheSame`: it stays so where the compiler fuses the product and the sum into one rounding.
5. `HeaderLaws.ParseOfHead`, `RoundTrips.FinishedSizesAreTrue`, `Reencoding.ReencodingReproduces`,
   `WalkLaws.PadTolerance`, `OrderIndependence`, `ParseIsBounded`: header print and parse, honest sizes, files that
   survive being read and written again, and a parser that is total, bounded and tolerant in the stated ways.
6. `Conversion.Convert`, `Samples.RequantisationComposes`, `CompandedGoesThrough16`: fast kernels refine the per-sample
   meaning, and conversions compose exactly when the middle width allows. `SampleLaws.RequantFloors`,
   `RequantMovesBytes`, `FloatsAreScaled` and `Companded.ALawSegmentsDouble` say what that meaning is.
7. `FloatLaws.PatternsCountUp`, `TopBitNegates`, `EveryValueHasAPattern`: the float decoding is IEEE 754's, told by how
   patterns relate, and onto the values the quantiser is proved for.
8. `Modes.ModeDecidesOpening`, `ModeDecidesRun`, `ModeDecidesContainer`, with `Anatomy.HeadSpelled` and
   `FileStatesItsFormat`: from the configuration alone, which streams open, when a run is refused, and every byte of the
   header that is left.
9. `DecodedLaws.DeliveredAsAsked`, `ParseLaws.ConcludedExactly`, `FmtLaws.ReadFields`: from the bytes alone, what is
   accepted, how it is described, and at which width it is delivered.

Where the code and its comments disagree the model follows the code. The comment at `internal/sample/sample.go:547-549`
says that adding a half above half an LSB cannot change binade and is exact; `Quantizer.HalfCanBeInexact` gives the value
for which it is not, and `Quantizer.HalfSum` proves the result right all the same, by monotonicity of rounding at the
edge; `Quantizer.HalfIsExactWhen` says for every value which it is. `Bext.validate` does not bound the width of the date
and the time (`pcm/bext.go:240-249`); `BextCodec.BextRoundTrip` proves that the round trip holds exactly when they fit
their fields. The date's layout accepts ten characters and no others, so only the time, whose seconds may carry a
fraction, can overrun; `BextCodec.FractionalTimeIsCut` shows one that does.

The stamp at Close is described as setting the sizes of the stream (`pcm/encoder.go:365-371`). It is written at offset 0
of the sink (`internal/riff/writer.go:411-427`), which is the stream's own header only where the stream begins there.

Four properties a caller might expect are false of the code. Each has its exact condition and a failing input:
`RoundTrips.ExactUnlessOdd` with `OddSampleGainsItsPad` (the pad byte of an undeclared stream, on a plain writer or on a
seekable sink that held something before it), `RoundTrips.FinishedSizesAreTrue` and `SurvivesBehindTheStamp` with the
same input (a seekable sink not at its front leaves an undeclared stream with the sizes of an empty one),
`EncoderConfig.AutoNeverFailsOnSize` with `Encoding.HugeBextNeedsALength` (a header that alone outgrows RIFF), and
`BextCodec.BextRoundTrip` with `FractionalTimeIsCut`.

## Model

| member | source | states |
|---|---|---|
| `RoundTrips.WholeRun` | pcm/encoder.go:252-421 | For every accepted configuration, all audio that can be finished and every position of the stream in a seekable or plain sink: the header the stream carries (stamped, or as opened where the stamp is not its own) with the audio and its pad byte parses; format, container, extensible fields and metadata bodies (up to 2^20 bytes) come back; the data size is the audio length when one was declared or stamped and is 1 to 2^62, else unknown; decoding with any option yields the (converted) audio |
| `RoundTrips.StreamInItsSink` | internal/riff/writer.go:411-427 | Behind whatever a sink held before, a delivered stream's bytes are exactly the header it carries, the audio and its pad byte, on a plain sink, at the front of a seekable one, and anywhere behind the stamped bytes: what `WholeRun` speaks of is what `Session` leaves |
| `RoundTrips.ExactUnlessOdd` | pcm/encoder.go:393-421 | Decoding as stored returns the audio unchanged if and only if it is even, or it has 1 to 2^62 bytes and its length was declared or stamped into the stream's own header (a seekable sink that stood at its front); every other odd stream gains its pad byte |
| `RoundTrips.OddSampleGainsItsPad` | pcm/encoder.go:393-421 | The failing input: one 8-bit mono sample with nothing declared comes back as that sample and a zero, from a plain writer and from a seekable sink with 80 bytes already in it |
| `RoundTrips.FinishedSizesAreTrue` | pcm/encoder.go:373-421 | The size fields a finished stream carries are true iff the sink can seek and stood at its front, frames were declared, or there is no audio |
| `RoundTrips.StampIsIdle` | pcm/encoder.go:406-421 | The final header equals the opening one, byte for byte, iff frames were declared or there is no audio |
| `RoundTrips.SurvivesBehindTheStamp` | internal/riff/writer.go:411-427 | Begun behind the stamped bytes of a seekable sink, a stream keeps its opening header; it is the file its final header would describe iff frames were declared or there is no audio |
| `RoundTrips.TornStreamIsLost` | internal/riff/writer.go:411-427 | Begun one to three bytes into a seekable sink, a stream's magic is overwritten and the parser refuses it as not RIFF, whatever its configuration and audio |
| `RoundTrips.UnclosedDecodes` | internal/riff/reader.go:211-236 | A stream cut off before Close, or after a failed write, still parses; with nothing declared it decodes to all that was written, in an unfailed encoder every whole frame accepted |
| `RoundTrips.EncodeThenDecode` | pcm/encoder.go:81-421 | The two machines run one after the other over a new sink: the encoder ends with exactly the verdict on its audio (nothing wrong iff it is finishable), and the one-shot decoder then returns that audio, or refuses it only for not fitting the platform |
| `RoundTrips.BextComesBack` | pcm/bext.go:258-295 | The descriptor a file was configured with is what a reader parses out of its bext chunk, iff its body is at most 2^20 bytes and date and time fit their widths |
| `Reencoding.HeaderIsReproduced` | internal/riff/reader.go:65-209 | For every buildable header, the configuration a reader recovers from it prints the same header byte for byte iff both metadata bodies are at most 2^20 bytes and the data size at most 2^62 |
| `Reencoding.ReencodingReproduces` | pcm/encoder.go:81-421 | A finished stream, read back and written again with the same reservation, is the same file byte for byte iff the descriptor is at most 2^20 bytes and a length that was declared or stamped is at most 2^62 |
| `EncoderRuns.Session` | pcm/encoder.go:81-421 | Reset, any list of writes (mid-frame splits and empty ones included), Close, on a sink at any position: refusals of Reset leave the sink alone; otherwise, the sink willing, the run ends too large iff the whole frames cannot be described, else with trailing bytes iff a frame is partial, else with a mismatch iff the frame count is not the declared one, else without error; and then everything the sink holds up to its position is given |
| `EncoderRuns.WhereTheStreamSurvives` | internal/riff/writer.go:411-427 | The stamp goes to offset 0 wherever the stream began. Byte for byte: at the front of a seekable sink the final header stands ahead of the audio; behind the stamped bytes the opening one stays; within them the first bytes are the tail of the stamp |
| `EncoderRuns.FinishableExactly` | pcm/encoder.go:327-347 | A stream can be finished iff it is whole frames, as many as declared, below 2^63 bytes, and RF64, upgradable, or within both 32-bit fields; so RF64Auto on a seekable undeclared sink never refuses below 2^63, and a declared stream is finishable iff it has its declared length |
| `EncoderRuns.DeclaredIsFinal` | pcm/encoder.go:121-130 | A declared length makes the opening header final at once, on any sink |
| `EncoderRuns.UpgradedEqualsNative` | internal/riff/writer.go:363-409 | The header an upgrade leaves (JUNK turned into ds64) is byte for byte the one a writer that chose RF64 and knew its sizes from the start emits, for every format and metadata |
| `EncoderRuns.SettledStep` | pcm/encoder.go:327-347 | Settling on a container on the way never changes where the stream ends up nor whether a later write is refused |
| `EncoderRuns.EncodeInterleaved` | pcm/encode_oneshot.go:25-65 | Refuses a nil writer, a bad configuration or a partial frame without touching the sink; otherwise nothing but the sink can make it fail, the header declares exactly the audio given and is final from the start, and what the sink holds is given at any position |
| `Modes.RejectedExactly` | pcm/pcm.go:159-216 | A configuration is accepted iff rate is 1 to 2^31-1, channels 1 to 65535, format and depth are supported, the descriptor is valid and iXML at most 2^20 bytes; each of the three errors is given exactly where the first unmet condition calls for it |
| `Modes.ModeDecidesOpening` | pcm/encoder.go:163-228 | For every accepted configuration: Never opens RIFF iff the fields and the declared bytes fit, Always opens RF64 and is refused as a bad configuration iff the sink is plain and nothing is declared, Auto opens RIFF undeclared (with room for an upgrade iff the sink can seek) and declared iff the bytes fit; every other refusal is too large; the header carries the configuration field by field |
| `Modes.ModeDecidesRun` | pcm/encoder.go:327-421 | The verdict on n bytes from the mode alone: too large iff the whole frames pass 2^63-1 bytes or pass 32-bit sizes the mode is held to (always under Never, never under Always, under Auto on a plain sink or when a fitting length was declared), else trailing bytes, else a wrong count, else none |
| `Modes.ModeDecidesContainer` | pcm/encoder.go:327-421 | The container a finished stream carries: RIFF for all audio under Never, RF64 under Always, under Auto RIFF unless the declared bytes, or the audio where the header is stamped, do not fit |
| `Modes.FinishedMagic` | pcm/encoder.go:163-211 | The first four bytes of a finished stream are RIFF under Never and RF64 under Always, whatever the audio and wherever it stands |
| `Anatomy.HeadSpelled` | internal/riff/writer.go:79-211 | Every header, whole: each identifier in ASCII, each size, the ds64 or JUNK box, the fmt, bext and iXML chunks with their pad bytes, the fact count, all ones where 64-bit fields take over |
| `Anatomy.FileStatesItsFormat` | internal/riff/format.go:260-331 | A finished file states, at fixed offsets and straight from the configuration, tag, channels, rate, byte rate = rate x block align, block align = sample width x channels, bits, and in the 40-byte form extension size 22, valid bits, mask and sub-format |
| `Anatomy.RefusedExactly` | internal/riff/writer.go:79-130 | Which headers can be built, as an iff on literal bounds, and when the refusal is for lack of support |
| `Format.FrameWidthIsProduct` | pcm/pcm.go:146-154 | The frame width, kept linear by cases, is the sample width times the channel count for every depth |
| `EncoderConfig.Vet` | pcm/pcm.go:159-216 | The checks in the source's order, the descriptor validated field by field, decide the specified rejection |
| `Encoding.Encoder.Write` | pcm/encoder.go:252-289 | Keeps the invariant (sink = header ++ first `written` accepted bytes, written + carried = accepted, carry below one frame, RIFF only while it fits); a non-failing sink is refused as too large exactly when the whole frames cannot be described; a failed encoder reports the same error and changes nothing |
| `Encoding.Encoder.WriteAligned` | pcm/encoder.go:296-308 | Emits the whole frames and carries the rest; refused iff the whole frames cannot be described |
| `Encoding.Encoder.Emit` | pcm/encoder.go:312-322 | A refusal leaves sink and count untouched; a failing sink's partial write is counted, so the placed-bytes invariant survives failure |
| `Encoding.Encoder.CheckCapacity` | pcm/encoder.go:327-347 | Grants n more bytes iff the stream stays describable, and the container moves from RIFF to RF64 exactly when the 32-bit fields overflow |
| `Encoding.Encoder.NeverPastTheFields` | pcm/encoder.go:333-346 | Where no upgrade is possible the sink never holds more than 32-bit fields can describe, in every placed state |
| `Encoding.Encoder.Finalisable` | pcm/encoder.go:406-414 | Whenever the invariant holds the header can be stamped: the container matches the magic, or an upgrade has room |
| `Encoding.Encoder.Close` | pcm/encoder.go:373-421 | Idempotent; a partial frame is an error that leaves the sink alone, a frame count other than declared one after which the sink has gained only the pad byte; otherwise only the sink can fail it, and what the sink then holds is given byte for byte at any position: the pad byte, and on a seekable sink the final header over the front |
| `Encoding.Encoder.Settle` | pcm/encoder.go:406-419 | Overwrites the front of the sink with the header that would have been emitted had container, size and frame count been known, and restores the position |
| `Encoding.Encoder.Reset` | pcm/encoder.go:81-154 | A rejection invalidates the encoder and does not touch the sink; success establishes the invariant with the opening header at the sink's position |
| `Encoding.DescribableBelow` | internal/riff/writer.go:283-293 | What can be described in full can be described on the way there |
| `EncoderConfig.AutoChoosesByFit` | pcm/encoder.go:173-189 | RF64Auto with a declared length chooses RIFF iff both 32-bit fields fit, counting the header with its metadata |
| `EncoderConfig.AutoNeverFailsOnSize` | pcm/encoder.go:163-211 | Under RF64Auto, for every accepted configuration and every bext length, the header is built iff the declared bytes are an int64, the fmt fields and the bext chunk fit their own fields and either a length is declared or the bare header fits the RIFF size field; declared bytes beyond int64 are refused as too large |
| `Encoding.AutoOpensExactly` | pcm/encoder.go:81-130 | The same for a whole Reset: under RF64Auto an accepted configuration opens a stream iff those conditions hold of its own descriptor |
| `Encoding.HugeBextNeedsALength` | pcm/encoder.go:163-196 | The failing input: a valid descriptor with a body of 2^32-1 bytes on a seekable undeclared sink is refused as too large, and accepted once a length is declared |
| `EncoderConfig.DeclaredDataSize` | pcm/encoder.go:215-228 | The declared frames in bytes, refused iff the product leaves int64 |
| `Wire.FieldsSpellTheirValues` | internal/riff/chunk.go:121-139 | Every 16-, 32- and 64-bit field is read and written little-endian |
| `Chunks.IdentifiersSpell` | internal/riff/chunk.go:11-24 | Each chunk and form identifier is the ASCII spelling of its name |
| `HeaderWriter.BuildHeader` | internal/riff/writer.go:79-211 | Growing the buffer and stamping sizes yields exactly `Head` and its offsets, or the stated refusal |
| `HeaderWriter.ProbeMatchesEmission` | internal/riff/writer.go:295-331 | The computed header length equals the emitted length and the recorded data offset for every buildable configuration |
| `HeaderWriter.RiffSizeIsExact` | internal/riff/writer.go:221-235 | The wrapping int64 size arithmetic, reinterpreted as uint64, is the exact file size less eight, up to the largest int64 audio |
| `HeaderWriter.FitsIsMonotone` | internal/riff/writer.go:289-293 | A length that fits makes every shorter one fit, and a plain RIFF header never carries the all-ones sentinel as its data size |
| `HeaderWriter.WriteSizesInto` | internal/riff/writer.go:238-281 | Stamping in place replaces every size field and nothing else, whatever sizes were there; refused iff the sizes do not fit the container |
| `HeaderWriter.PatchSizes` | internal/riff/writer.go:338-361 | Leaves in the file the header that early knowledge of the sizes would have emitted; a wrong container, a negative size or too large a one is refused and changes nothing |
| `HeaderWriter.UpgradeToRF64` | internal/riff/writer.go:375-409 | Magic, JUNK and sizes change so that the file carries the header a native RF64 writer would have emitted, position restored; a wrong container, missing space or a negative size changes nothing |
| `HeaderWriter.FinalKeepsShape` | internal/riff/writer.go:363-374 | Finalising never moves a byte behind the header: its length and chunk layout stay |
| `HeaderLaws.ParseOfHead` | internal/riff/reader.go:65-209 | Parsing an emitted header followed by any bytes recovers the normalised format, sizes and metadata and stops exactly on the first byte behind it |
| `HeaderLaws.HeadAsPieces` | internal/riff/writer.go:79-211 | The emitted header is, byte for byte, its chunks laid out behind the file header |
| `HeaderLaws.HeaderStatesItsSizes` | internal/riff/writer.go:238-281 | Behind a header and any audio with its pad byte the RIFF or ds64 size states the true file length less eight, and the data size the audio length, iff the audio has the length the header was built for |
| `WalkLaws.ParseIsBounded` | internal/riff/reader.go:65-297 | On every byte string the parser ends in an error or a header with rate in 1 to 2^31-1, 1 to 65535 channels, block align = width x channels, data size unknown or 1 to 2^62, and frames x block align at most 2^62; the audio is a suffix of the input |
| `WalkLaws.PadTolerance` | internal/riff/reader.go:377-402 | For printable identifiers, every independent choice of writing or omitting pad bytes gives the same header and the same audio |
| `WalkLaws.OrderIndependence` | internal/riff/reader.go:85-174 | Permuting the chunks ahead of data, known ones at most once, preserves acceptance and the header |
| `WalkLaws.RepeatedChunks` | internal/riff/reader.go:96-158 | Of repeated chunks the last fmt and ds64 count, the last fact of at least four bytes, and the first bext and iXML, even one too large to hold |
| `WalkLaws.WalkToData` | internal/riff/reader.go:85-174 | A walk over complete chunks is a fold over them, ending on the first audio byte |
| `HeaderReader.ParseHeader` | internal/riff/reader.go:65-209 | The loop over a source with short reads computes `Parse` of its bytes and leaves the source on the first audio byte |
| `HeaderReader.SkipPadByte` | internal/riff/reader.go:385-402 | Consumes a pad byte unless a printable identifier already stands there |
| `HeaderReader.DiscardN` | internal/riff/reader.go:407-420 | Skipping in int-sized steps skips exactly n bytes or to the end |
| `HeaderReader.ReadPayload` | internal/riff/reader.go:347-367 | A payload over 2^20 bytes is skipped, a truncated one returned as far as it goes |
| `ParseLaws.MagicDecides` | internal/riff/reader.go:302-329 | A stream is refused as not RIFF iff its first twelve bytes are not RIFF, RF64 or BW64 with WAVE, and is read as the container its magic names |
| `ParseLaws.PadIsSkipped` | internal/riff/reader.go:377-402 | One byte is skipped iff the chunk is odd, four bytes follow and one of them is not printable |
| `ParseLaws.PayloadIsHeld` | internal/riff/reader.go:347-367 | A payload is held iff it is at most 2^20 bytes, cut where the stream ends |
| `ParseLaws.DS64Fields` | internal/riff/reader.go:427-443 | File size, data size and sample count at offsets 0, 8 and 16 of at least 28 bytes |
| `ParseLaws.ChunksAreAccepted` | internal/riff/reader.go:85-174 | The chunks ahead of the audio, repeated ones included, are accepted iff every fmt and every ds64 among them is |
| `ParseLaws.ConcludedExactly` | internal/riff/reader.go:176-297 | For every container, every combination of chunks and every size field: a header iff fmt was seen and, off RIFF, ds64; its length the stated one from 1 to 2^62, else unknown; its frame count derived from that, else the one ds64 or fact claims while frames x block align stays within 2^62 |
| `Format.ParseOfPrintedFmt` | internal/riff/format.go:97-331 | Parsing a printed fmt chunk gives the format with extensible promotion, valid bits, mask and block align made explicit |
| `Format.PrintedFmtIsStable` | internal/riff/format.go:97-331 | Printing what was parsed and parsing it again changes nothing |
| `Format.AppendFmt` | internal/riff/format.go:260-331 | The buffer filled by offset is the fmt body, or refused as too large iff a field overflows |
| `FmtLaws.PrintedFields` | internal/riff/format.go:235-331 | The printed chunk offset by offset: length 16, 18 or 40 and tag by what has to be said, byte rate = rate x block align, block align = sample width x channels, extension size 22, valid bits, mask, sub-format |
| `FmtLaws.ReadFields` | internal/riff/format.go:97-231 | For every payload: accepted iff its fields are in range and its tag (1, 3, 6, 7, its own or its sub-format's) supports the depth; which error otherwise; and each field of the result from its offset |
| `FmtLaws.WritableExactly` | internal/riff/format.go:260-289 | A format can be written iff it is supported, and channels, frame width and byte rate, as products, fit their fields |
| `FmtLaws.MaskNamesItsSpeakers` | internal/riff/format.go:46-82 | The mask for each channel count is the sum of its named speakers |
| `Decoding.Decoder.Read` | pcm/decoder.go:430-606 | For any buffer and any short reads: the bytes delivered are the next ones of what the stream decodes to, the rest of the buffer is untouched, every call makes progress or reports the end, and the end persists |
| `Decoding.Decoder.ReadRaw` | pcm/decoder.go:454-477 | Pass-through reads stop at the data chunk's end |
| `Decoding.Decoder.ReadConverted` | pcm/decoder.go:529-606 | Converting in batches, with at most one converted sample staged, delivers the conversion of the whole window |
| `Decoding.BatchDiscipline` | pcm/decoder.go:490-526 | A batch is whole samples, at most 64 KiB and at most what remains, empty iff less than a sample is left, overruns the buffer only when that is smaller than one converted sample, and is as long as those bounds allow |
| `Decoding.Decoder.SeekToFrame` | pcm/decoder.go:683-747 | A refusal moves nothing; success positions at the output of the frame reached (requested, or clamped to the declared audio), equal to skipping frame x channels x output width bytes; refused for range iff the offset leaves int64 |
| `Decoding.FrameOffset` | pcm/decoder.go:709-721 | The offset arithmetic never overflows, and clamps to whole frames |
| `Decoding.Decoder.WriteTo` | pcm/decoder.go:608-652 | Drains exactly what was pending into the sink, wherever it stands, or a prefix of it when the sink fails; every write it offers is 64 KiB long, except that the last may be shorter, though never empty |
| `Decoding.Decoder.Reset` | pcm/decoder.go:205-328 | The decoder stands at the start of what the source's bytes decode to, description included, or is unusable with the error |
| `DecodedLaws.DecodesExactly` | pcm/decoder.go:205-328 | A byte string decodes iff it parses and the width asked for is 8, 16, 24 or 32; which error otherwise |
| `DecodedLaws.DeliveredAsAsked` | pcm/decoder.go:300-328 | Asked for k bits, the stream is described as k-bit PCM without valid bits and has k/8 bytes for each whole stored sample; unasked, companded audio is 16-bit PCM and any other its stored bytes, described as stored; at equal depths integer samples come back unchanged |
| `DecodedLaws.DeliveredSample` | pcm/decoder.go:529-606 | Each delivered sample is the conversion of the stored one standing in its place, wherever in the stream |
| `DecodedLaws.DescriptionIsKept` | pcm/decoder.go:280-302 | Every other field of the description is the stream's own; ignoring the length forgets frame count and size |
| `DecoderRuns.Play` | pcm/decoder.go:430-747 | Every sequence of reads of any size and seeks to any frame replays the decoded output: each read gets the bytes standing at the current place; each seek is refused iff the frame is negative, the source cannot seek or the offset leaves int64 (or the source itself fails), and otherwise lands on the requested frame or the last known one; nothing is skipped, repeated or invented |
| `DecoderRuns.SeekingAsDescribed` | pcm/decoder.go:683-747 | Seeks clamp to the total frames the description states, where it states a length, and a frame is as wide, stored and delivered, as the description says |
| `Streams.RenderSkips` | pcm/decoder.go:683-747 | Skipping stored samples and then converting is converting and then skipping |
| `Streams.BatchStep` | pcm/decoder.go:554-571 | Converting a batch now and the rest later is converting everything, also where the source ends mid-sample |
| `OneShot.ReadAllLimit` | pcm/decode_oneshot.go:143-176 | Succeeds iff the output is at most the ceiling, and then returns all of it; the buffer never exceeds the ceiling and the number of reads is bounded by it, whatever the source |
| `OneShot.DecodeInterleavedLimit` | pcm/decode_oneshot.go:66-86 | Returns what the source's bytes decode to, refused iff above the ceiling |
| `OneShot.DecodeInterleavedBytes` | pcm/decode_oneshot.go:280-366 | Returns the same for bytes in memory: as a window of the input iff nothing is converted, else in one conversion, refused iff the platform cannot express the length |
| `OneShot.DrainsAgree` | pcm/decode_oneshot.go:66-366 | On every byte string and under every option the streaming drain, the growing buffer and the window return the same bytes and description or the same error, apart from the ceiling of the second and the platform limit of the last two, each exact |
| `OneShot.PresizeIsExact` | pcm/decode_oneshot.go:104-120 | For all the parser hands out, the possibly wrapping hint is min(true size, 32 MiB, positive ceiling) below 2^63 and 0 above |
| `OneShot.NextCap` | pcm/decode_oneshot.go:182-187 | Growth is strict and never past the limit |
| `OneShot.WholeFits` | pcm/decode_oneshot.go:412-417 | The division guard admits a conversion iff its result is expressible |
| `Conversion.Convert` | internal/sample/sample.go:143-179 | Every path writes exactly the per-sample conversion of the whole samples and nothing else, or refuses and writes nothing |
| `Conversion.PlanIsExact` | internal/sample/sample.go:74-117 | The plan succeeds iff the depths are supported and the result fits both platform and destination, with the exact length |
| `Conversion.ConvertBlocked` | internal/sample/sample.go:183-216 | The 1024-sample blocked loop equals the per-sample conversion for integer pairs, companded codes and floats |
| `Conversion.Convert8to16` | internal/sample/sample.go:289-296 | The single-pass byte kernel equals the per-sample conversion |
| `Conversion.Convert16to32` | internal/sample/sample.go:304-313 | The single-pass byte kernel equals the per-sample conversion |
| `Conversion.Convert24to32` | internal/sample/sample.go:320-330 | The single-pass byte kernel equals the per-sample conversion |
| `Conversion.Convert24to16` | internal/sample/sample.go:338-347 | The single-pass byte kernel equals the per-sample conversion, dropping the low byte as the floor shift does |
| `Conversion.DecodeBlock` | internal/sample/sample.go:387-425 | Stages the signed values of the stored samples, 8-bit bias and 24-bit sign extension included |
| `Conversion.EncodeBlock` | internal/sample/sample.go:430-457 | Writes the stored form of the staged values, 8-bit bias included |
| `Conversion.TrailingIgnored` | internal/sample/sample.go:134-138 | A trailing partial sample contributes nothing |
| `Conversion.QuantizeBlock` | internal/sample/sample.go:472-508 | The float loop stages the ideal quantisation of each sample |
| `Conversion.LookUpBlock` | internal/sample/companded.go:126-155 | Table look-up stages the expansion of each code |
| `SampleLaws.StoredValue` | internal/sample/sample.go:387-425 | A stored integer sample is its bytes read little-endian, biased by 128 at 8 bits and two's complement above |
| `SampleLaws.RequantFloors` | internal/sample/sample.go:183-216 | For every pair of depths and every sample: narrowing rounds toward negative infinity (r x 2^(a-b) <= v < (r+1) x 2^(a-b)), widening multiplies by 2^(b-a) |
| `SampleLaws.RequantMovesBytes` | internal/sample/sample.go:183-347 | The same in bytes: the most significant ones survive, zeros fill in below, the top byte is biased where exactly one depth is 8 |
| `SampleLaws.ExpansionFloors` | internal/sample/companded.go:126-155 | A code becomes the value of its own law, scaled from 16 bits as an integer sample is |
| `SampleLaws.FloatsAreScaled` | internal/sample/sample.go:472-557 | A float sample becomes the integer nearest to value x 2^(bits-1), ties away from zero, clamped; NaN is 0 |
| `SampleLaws.EverySampleInItsPlace` | internal/sample/sample.go:134-141 | Each sample is converted by itself and keeps its place; a partial one at the end is dropped |
| `Samples.RequantisationComposes` | internal/sample/sample.go:183-216 | Converting a to b and then b to c equals a to c for all byte strings iff b >= min(a, c); widening then narrowing is the identity |
| `Samples.CompandedGoesThrough16` | internal/sample/companded.go:126-155 | Expanding straight to any width equals expanding to 16 bits and requantising |
| `Samples.SameDepthIsCopy` | internal/sample/sample.go:164-168 | At equal depths conversion is the identity on whole samples |
| `Samples.AllSplit` | internal/sample/sample.go:134-141 | Conversion distributes over a split at a sample boundary |
| `Samples.DecodedFloatIsValid` | internal/sample/sample.go:472-508 | Every 32- or 64-bit pattern decodes to a binary64 value |
| `FloatLaws.PatternsCountUp` | internal/sample/sample.go:472-508 | For both widths: the zero pattern is 0, and each next pattern is larger by exactly one unit in the last place |
| `FloatLaws.PatternsIncrease` | internal/sample/sample.go:472-508 | Without the top bit a larger pattern is a larger value, up to infinity |
| `FloatLaws.TopBitNegates` | internal/sample/sample.go:472-508 | Setting the top bit negates the value |
| `FloatLaws.BeyondInfinityIsNaN` | internal/sample/sample.go:472-508 | Patterns below 0x7f800000 (0x7ff0000000000000) are finite, that one is infinity, those beyond are NaN |
| `FloatLaws.OneHasItsPattern` | internal/sample/sample.go:472-508 | 0x3f800000 and 0x3ff0000000000000 decode to 1 |
| `FloatLaws.EveryValueHasAPattern` | internal/sample/sample.go:472-508 | Every value the quantiser is proved for is the decoding of some 64-bit pattern |
| `Quantizer.QuantizeIsIdeal` | internal/sample/sample.go:521-557 | With every binary64 operation rounded, the result is clamp(round half away(f x 2^(bits-1))) for finite f, 0 for NaN, the limits for infinities, always in range |
| `Quantizer.QuantizeMonotone` | internal/sample/sample.go:521-557 | The quantiser as the code computes it, roundings included, is monotone, infinities included |
| `Quantizer.FusedIsTheSame` | internal/sample/sample.go:521-557 | Where the compiler fuses the product and the added half into one rounding, as Go permits, the result is the same for every input |
| `Quantizer.HalfSum` | internal/sample/sample.go:546-553 | Rounding v + 1/2 and truncating is rounding half away, although the sum may be inexact |
| `Quantizer.HalfIsExactWhen` | internal/sample/sample.go:546-553 | For every v from 1/2 on, v + 1/2 is representable iff 1/2 is a whole number of units of v and the sum stays in the binade of v or is an even number of units |
| `Quantizer.HalfCanBeInexact` | internal/sample/sample.go:546-553 | The failing input: 1/2 + 2^-53, whose sum with 1/2 is rounded |
| `Quantizer.LimitsAreExact` | internal/sample/sample.go:472-508 | The limits computed in floating point are exact |
| `Binary64.RoundExact` | internal/sample/sample.go:521-557 | The modelled rounding leaves every representable value alone, either sign |
| `Binary64.RoundMonotone` | internal/sample/sample.go:521-557 | It is monotone over all reals, overflow to the infinities included |
| `Binary64.RoundIsNearest` | internal/sample/sample.go:521-557 | For every real short of overflow the result is representable and no representable value is nearer |
| `Binary64.TieGoesToEven` | internal/sample/sample.go:521-557 | Where another representable value is equally near, the result has the even significand |
| `Companded.BuildTable` | internal/sample/companded.go:30-37 | The table holds the law at every code |
| `Companded.LawsAreOdd` | internal/sample/companded.go:71-111 | Flipping the sign bit negates the expansion under both laws |
| `Companded.ALawSegmentsDouble` | internal/sample/companded.go:71-95 | The first 32 positive values are 16n+8, and every segment from there doubles the one below: with oddness, all 256 values |
| `Companded.MuLawSegmentsDouble` | internal/sample/companded.go:101-111 | The first 16 positive values are 8n, and past a bias of 132 every segment doubles the one below: with oddness, all 256 values |
| `BextCodec.BextRoundTrip` | pcm/bext.go:258-377 | For every validated descriptor parse(serialize(b)) = b iff the date has at most 10 and the time at most 8 bytes |
| `BextCodec.FractionalTimeIsCut` | pcm/bext.go:240-249 | The failing input: the time 12:34:56.7, which the layout accepts, comes back as 12:34:56 |
| `BextCodec.ReparseIsStable` | pcm/bext.go:337-377 | For every body of at least 602 bytes the parsed result passes the version gate and survives printing and parsing |
| `BextCodec.Serialize` | pcm/bext.go:258-295 | The buffer built field by field is the bext body |
| `BextCodec.Validate` | pcm/bext.go:147-195 | Accepts iff widths, text, calendar and version gate hold |
| `BextCodec.CheckText` | pcm/bext.go:219-233 | The loop accepts iff every byte is printable ASCII, CR or LF |
| `BextLaws.AcceptedExactly` | pcm/bext.go:147-249 | A descriptor is accepted iff its texts fit 256, 32 and 32 bytes, no text byte is a control other than CR and LF, DEL or above ASCII, date and time are empty or real, and version 0 carries no UMID and versions below 2 no loudness |
| `BextLaws.PrintedFields` | pcm/bext.go:258-307 | The printed body at literal offsets, each text field its text followed by NUL, 180 reserved zeros |
| `BextLaws.PrintedLoudness` | pcm/bext.go:281-313 | The five loudness values as signed 16-bit numbers in their order |
| `BextLaws.ReadFields` | pcm/bext.go:337-394 | Bodies below 602 bytes are refused, all others accepted, each field read from its literal offset under the version that knows it |
| `BextLaws.CutAtTheFirstNul` | pcm/bext.go:383-386 | The text of a field is its longest beginning without a NUL, whatever follows the first one |

## Left out

- Streams.Decoded: the reference is for sources that only end. A source error in the middle of a converting read drops bytes already consumed (`pcm/decoder.go:565-571`), so nothing is claimed there.
- EncoderRuns.WhereTheStreamSurvives: of a stream begun within the stamped bytes of a seekable sink it gives the bytes only. Past the third byte they are arbitrary header content, which metadata can make look like a file of its own; up to the third `TornStreamIsLost` gives the outcome.
- Encoding.Encoder.Close: says of a seekable sink that failed during the header rewrite only that the error is reported, not what the sink holds.
- Decoding.Decoder.ReadConverted: the staging area is a sequence, so the reuse of its capacity across calls, and of the source-side buffer, is not captured.
- OneShot.DecodeInterleavedBytes: takes fewer than 2^62 bytes, more than any platform addresses, so that the end of the window is an int64 sum; aliasing of the result with the input is stated as a window position only.
- BextCodec.Validate: the calendar rules of Go's time.Parse are a parameter, assumed only never to accept a NUL byte.
- Quantizer.Quantize: the sign of a zero is not modelled; no branch depends on it.
- Sinks: those that break the io.Writer contract (a short write without an error) are not modelled, so the short-write guard of `WriteTo` is not either.
- bufio and its two-layer window: replaced by one cursor with nondeterministic short reads, Peek and Discard.
- Branches that the parser's bounds make unreachable: a block align or sample width that is not positive (`pcm/decoder.go:695-698`, `pcm/decoder.go:548-552`) and an audio start outside the buffer (`pcm/decode_oneshot.go:309-313`).
- Error texts, sentinel wrapping, String methods, Sniff and SniffContainer, StreamInfo.Duration, Decoder.Bext and Decoder.IXML memoisation: one branch each.
- Pooling, concurrency, and the rules, tools and benchmark directories.
