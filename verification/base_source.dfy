/**
  The built-in source: a name and an `active` flag. The flag gates frame
  production; while active the source hands out a static 1920x1080 RGBA
  picture and a static block of mono silence at 48 kHz.
*/
module BaseSource {
  import opened SimpleObs

  datatype Source = Source(name: string, active: bool)

  const Id := "base_source"

  const Width := 1920
  const Height := 1080
  const Stride := Width * RgbaBytesPerPixel
  const SamplesPerBlock := 480
  const SampleRate := 48000
  const Channels := 1

  /** A freshly constructed source is inactive and carries its given name. */
  function New(name: string): (s: Source)
    ensures !IsActive(s)
    ensures GetName(s) == name
  {
    Source(name, false)
  }

  /** The name given at construction. */
  function GetName(s: Source): (n: string)
    ensures n == s.name
  {
    s.name
  }

  /** The fixed type tag, the same for every base source. */
  function GetId(s: Source): (id: string)
    ensures id == "base_source"
  {
    Id
  }

  /** Whether the source currently produces frames. */
  function IsActive(s: Source): (b: bool)
    ensures b == s.active
  {
    s.active
  }

  /** Initialization has nothing to acquire: it reports success and changes
      nothing. */
  function Initialize(s: Source): (r: (bool, Source))
    ensures r.0
    ensures r.1 == s
  {
    (true, s)
  }

  function Start(s: Source): (r: Source)
    ensures IsActive(r)
    ensures GetName(r) == GetName(s)
  {
    s.(active := true)
  }

  function Stop(s: Source): (r: Source)
    ensures !IsActive(r)
    ensures GetName(r) == GetName(s)
  {
    s.(active := false)
  }

  /** Shutdown forces the source inactive, whatever state it was in. */
  function Shutdown(s: Source): (r: Source)
    ensures !IsActive(r)
    ensures GetName(r) == GetName(s)
  {
    Stop(s)
  }

  /** `now` stands for the wall-clock reading the source stamps the frame
      with. An inactive source refuses and leaves the caller's frame as it
      was; an active one fills plane 0 and the layout fields and leaves the
      other three planes untouched. */
  function GetVideoFrame(s: Source, frame: VideoFrame, now: int): (r: (bool, VideoFrame))
    ensures r.0 <==> IsActive(s)
    ensures !r.0 ==> r.1 == frame
    ensures r.0 ==> ValidRgbaVideo(r.1)
    ensures r.0 ==> r.1.width == 1920 && r.1.height == 1080
    ensures r.0 ==> r.1.linesize[0] == 7680 && r.1.format == 0
    ensures r.0 ==> r.1.data[0] == RedRgbaBuffer && r.1.timestamp == now
    ensures r.0 ==> r.1.data[1..] == frame.data[1..] && r.1.linesize[1..] == frame.linesize[1..]
  {
    if !s.active then (false, frame)
    else
      (true, frame.(
        data := frame.data[0 := RedRgbaBuffer],
        linesize := frame.linesize[0 := Stride],
        width := Width,
        height := Height,
        format := FormatRgba,
        timestamp := now))
  }

  /** The audio counterpart: 480 samples of mono at 48 kHz in channel 0;
      channels 1 to 7 are left as the caller had them. */
  function GetAudioFrame(s: Source, frame: AudioFrame, now: int): (r: (bool, AudioFrame))
    ensures r.0 <==> IsActive(s)
    ensures !r.0 ==> r.1 == frame
    ensures r.0 ==> ValidAudio(r.1)
    ensures r.0 ==> r.1.samples == 480 && r.1.sampleRate == 48000 && r.1.channels == 1
    ensures r.0 ==> r.1.data[0] == SilenceBuffer && r.1.timestamp == now
    ensures r.0 ==> r.1.data[1..] == frame.data[1..]
  {
    if !s.active then (false, frame)
    else
      (true, frame.(
        data := frame.data[0 := SilenceBuffer],
        samples := SamplesPerBlock,
        sampleRate := SampleRate,
        channels := Channels,
        timestamp := now))
  }

  /** `Start` and `Stop` are idempotent, and each undoes the other as far as
      the activity flag is concerned. */
  lemma StartStopIdempotent(s: Source)
    ensures Start(Start(s)) == Start(s)
    ensures Stop(Stop(s)) == Stop(s)
    ensures Start(Stop(s)) == Start(s) && Stop(Start(s)) == Stop(s)
  {
  }

  /** One call a client can make on a source. */
  datatype Call =
    | CallInitialize
    | CallShutdown
    | CallStart
    | CallStop
    | RequestVideo(vframe: VideoFrame, vnow: int)
    | RequestAudio(aframe: AudioFrame, anow: int)

  /** Executes `calls` in order and returns the final source together with the
      success flag of every frame request, in order. */
  function Run(s: Source, calls: seq<Call>): (Source, seq<bool>)
    decreases |calls|
  {
    if |calls| == 0 then (s, [])
    else
      var (s', reply) := Step(s, calls[0]);
      var (final, replies) := Run(s', calls[1..]);
      (final, reply + replies)
  }

  function Step(s: Source, c: Call): (Source, seq<bool>) {
    match c
    case CallInitialize => (Initialize(s).1, [])
    case CallShutdown => (Shutdown(s), [])
    case CallStart => (Start(s), [])
    case CallStop => (Stop(s), [])
    case RequestVideo(f, now) => (s, [GetVideoFrame(s, f, now).0])
    case RequestAudio(f, now) => (s, [GetAudioFrame(s, f, now).0])
  }

  predicate NoStart(calls: seq<Call>) {
    forall i :: 0 <= i < |calls| ==> !calls[i].CallStart?
  }

  /** Once a source is stopped (or shut down), every frame request fails until
      the next `start`: along any sequence of calls that contains no `start`,
      every video and audio request is refused and the source stays inactive. */
  lemma {:induction false} StoppedSourceRefusesUntilStart(s: Source, calls: seq<Call>)
    requires !IsActive(s)
    requires NoStart(calls)
    ensures forall i :: 0 <= i < |Run(s, calls).1| ==> !Run(s, calls).1[i]
    ensures !IsActive(Run(s, calls).0)
    decreases |calls|
  {
    if |calls| > 0 {
      var (s', reply) := Step(s, calls[0]);
      assert !IsActive(s') && forall i :: 0 <= i < |reply| ==> !reply[i];
      assert NoStart(calls[1..]) by {
        forall i | 0 <= i < |calls[1..]|
          ensures !calls[1..][i].CallStart?
        {
          assert calls[1..][i] == calls[i + 1];
        }
      }
      StoppedSourceRefusesUntilStart(s', calls[1..]);
    }
  }

  /** Identity never changes after construction: no sequence of calls alters
      the name. */
  lemma {:induction false} IdentityIsStable(s: Source, calls: seq<Call>)
    ensures GetName(Run(s, calls).0) == GetName(s)
    decreases |calls|
  {
    if |calls| > 0 {
      IdentityIsStable(Step(s, calls[0]).0, calls[1..]);
    }
  }
}
