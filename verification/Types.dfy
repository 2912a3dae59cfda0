/** The vocabulary shared by every layer: errors, containers, sample formats and stream descriptions. */
module Types {
  import opened Wire

  datatype Option<+T> = None | Some(value: T)

  datatype Result<+T> = Ok(value: T) | Err(error: Error)

  datatype Error =
    | NotRIFF
    | CorruptStream
    | Unsupported
    | TooLarge
    | EncoderClosed
    | NilWriter
    | NilReader
    | BadConfig
    | TrailingBytes
    | FrameMismatch
    | WrongContainer
    | SinkFailure
    | ShortBuffer
    | SeekUnsupported
    | BadFrameIndex
    | SourceFailure
    | DecodeLimit
    | UnrepresentableSize
    | EOF

  datatype Container = RIFF | RF64 | BW64 {
    predicate Sized64() { RF64? || BW64? }
  }

  datatype SampleFormat = PCM | Float | ALaw | MuLaw {
    predicate Companded() { ALaw? || MuLaw? }
  }

  datatype StreamInfo = StreamInfo(
    sampleRate: int, channels: int, bitDepth: int, sourceBitDepth: int, validBits: int,
    format: SampleFormat, sourceFormat: SampleFormat, container: Container,
    extensible: bool, channelMask: uint32, totalFrames: uint64, dataSizeKnown: bool)

  /** The (format, depth) pairs the library supports. */
  predicate ValidDepth(format: SampleFormat, bits: int) {
    match format
    case PCM => bits in {8, 16, 24, 32}
    case Float => bits in {32, 64}
    case ALaw | MuLaw => bits == 8
  }

  /** Storage width in bytes, 0 for a depth that is not stored. */
  function BytesPerSample(bits: int): nat {
    if bits in {8, 16, 24, 32, 64} then bits / 8 else 0
  }
}
