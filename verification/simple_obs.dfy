/**
  Value types shared by every component of the engine: nullable shared
  pointers, the borrowed plane pointers a frame carries, and the two frame
  records with the layout rules a valid frame obeys.
*/
module SimpleObs {

  datatype Option<T> = None | Some(value: T)

  /** A shared pointer to a component: null, or the object living at `addr`.
      Two `Ref`s are equal exactly when they point at the same object, so
      equality of `Ptr` values is reference identity, never name equality. */
  datatype Ptr = Null | Ref(addr: nat)

  /** What one plane pointer of a frame points at. The producers' static
      buffers are named; anything else a caller left in the frame is an
      opaque foreign address. Buffer contents are not modelled. */
  datatype PlaneRef = Unset | RedRgbaBuffer | SilenceBuffer | Foreign(addr: nat)

  type VideoPlanes = s: seq<PlaneRef> | |s| == 4 witness [Unset, Unset, Unset, Unset]
  type VideoStrides = s: seq<int> | |s| == 4 witness [0, 0, 0, 0]
  type AudioPlanes = s: seq<PlaneRef> | |s| == 8
    witness [Unset, Unset, Unset, Unset, Unset, Unset, Unset, Unset]

  /** Four planes with a stride each, the picture size, a pixel-format tag and
      a capture time in microseconds. */
  datatype VideoFrame = VideoFrame(
    data: VideoPlanes,
    linesize: VideoStrides,
    width: int,
    height: int,
    timestamp: int,
    format: int)

  /** Up to eight channel buffers, the sample count, the sample rate, the
      channel count and a capture time in microseconds. */
  datatype AudioFrame = AudioFrame(
    data: AudioPlanes,
    samples: int,
    sampleRate: int,
    channels: int,
    timestamp: int)

  const FormatRgba := 0
  const RgbaBytesPerPixel := 4

  /** A delivered RGBA picture: positive size, a first plane that points at
      something, and a row stride wide enough for one row of pixels. */
  predicate ValidRgbaVideo(f: VideoFrame) {
    && f.format == FormatRgba
    && f.width > 0
    && f.height > 0
    && f.data[0] != Unset
    && f.linesize[0] >= f.width * RgbaBytesPerPixel
  }

  /** A delivered audio block: at least one sample, a positive rate, and a
      populated buffer for every channel it claims. */
  predicate ValidAudio(f: AudioFrame) {
    && f.samples > 0
    && f.sampleRate > 0
    && 0 < f.channels <= |f.data|
    && forall c :: 0 <= c < f.channels ==> f.data[c] != Unset
  }
}
