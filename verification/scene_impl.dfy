/**
  A scene: a name, an ordered list of shared source pointers and an
  `initialized` flag. Sources are shared objects (one source may sit in
  several scenes), so every operation that can stop a source takes the
  source heap and returns it updated.
*/
module SceneImpl {
  import opened SimpleObs
  import BaseSource

  /** The live source objects, by address. */
  type SourceHeap = map<nat, BaseSource.Source>

  datatype Scene = Scene(name: string, sources: seq<Ptr>, initialized: bool)

  const Id := "scene_impl"

  predicate NoNull(s: seq<Ptr>) {
    forall i :: 0 <= i < |s| ==> s[i].Ref?
  }

  predicate NoDuplicates(s: seq<Ptr>) {
    forall i, j :: 0 <= i < j < |s| ==> s[i] != s[j]
  }

  /** The list invariant `addSource` maintains: no null entry, no object twice. */
  predicate Valid(sc: Scene) {
    NoNull(sc.sources) && NoDuplicates(sc.sources)
  }

  /** Every listed pointer refers to a live object, as a shared pointer
      guarantees. */
  predicate Live(s: seq<Ptr>, heap: SourceHeap) {
    forall i :: 0 <= i < |s| && s[i].Ref? ==> s[i].addr in heap
  }

  /** The test a scan applies to each entry: non-null and active. */
  predicate ActiveIn(p: Ptr, heap: SourceHeap)
    requires p.Ref? ==> p.addr in heap
  {
    p.Ref? && BaseSource.IsActive(heap[p.addr])
  }

  /** A new scene carries its name, holds no source and is not initialized. */
  function New(name: string): (sc: Scene)
    ensures GetName(sc) == name
    ensures sc.sources == [] && !sc.initialized
    ensures Valid(sc)
  {
    Scene(name, [], false)
  }

  /** The name given at construction. */
  function GetName(sc: Scene): (n: string)
    ensures n == sc.name
  {
    sc.name
  }

  /** The fixed type tag, the same for every scene. */
  function GetId(sc: Scene): (id: string)
    ensures id == "scene_impl"
  {
    Id
  }

  /** Always succeeds; a second call finds the scene initialized and succeeds
      again without further change. */
  function Initialize(sc: Scene): (r: (bool, Scene))
    ensures r.0
    ensures r.1.initialized
    ensures r.1.name == sc.name && r.1.sources == sc.sources
    ensures sc.initialized ==> r.1 == sc
  {
    if sc.initialized then (true, sc)
    else (true, sc.(initialized := true))
  }

  /** Linear search by identity, as `std::find` does: the first position
      holding `p`, or nothing when `p` is absent. */
  function Find(s: seq<Ptr>, p: Ptr): (r: Option<nat>)
    ensures r.Some? ==> r.value < |s| && s[r.value] == p && p !in s[..r.value]
    ensures r.None? <==> p !in s
  {
    if |s| == 0 then None
    else if s[0] == p then Some(0)
    else
      match Find(s[1..], p)
      case None => None
      case Some(i) =>
        assert s[..i + 1] == [s[0]] + s[1..][..i];
        Some(i + 1)
  }

  /** Null and already-listed sources are refused and the scene is left as it
      was; any other source is appended after the existing ones. */
  function AddSource(sc: Scene, p: Ptr): (r: Scene)
    ensures r.name == sc.name && r.initialized == sc.initialized
    ensures p.Null? ==> r == sc
    ensures p in sc.sources ==> r == sc
    ensures p.Ref? && p !in sc.sources ==> r.sources == sc.sources + [p]
    ensures p.Ref? ==> p in r.sources
    ensures Valid(sc) ==> Valid(r)
  {
    if p.Null? then sc
    else
      match Find(sc.sources, p)
      case Some(_) => sc
      case None => sc.(sources := sc.sources + [p])
  }

  /** `s` with every occurrence of `p` dropped and the rest kept in order. */
  function Without(s: seq<Ptr>, p: Ptr): (r: seq<Ptr>)
    ensures forall q :: q in r <==> q in s && q != p
    ensures |r| <= |s|
  {
    if |s| == 0 then []
    else (if s[0] == p then [] else [s[0]]) + Without(s[1..], p)
  }

  /** Null and absent sources leave scene and heap alone. A listed source is
      first stopped if it was active, then unlinked; no other source object
      changes. */
  function RemoveSource(sc: Scene, heap: SourceHeap, p: Ptr): (r: (Scene, SourceHeap))
    requires Live(sc.sources, heap)
    ensures r.0.name == sc.name && r.0.initialized == sc.initialized
    ensures p.Null? || p !in sc.sources ==> r == (sc, heap)
    ensures r.1.Keys == heap.Keys
    ensures p.Ref? && p in sc.sources ==>
              && !BaseSource.IsActive(r.1[p.addr])
              && BaseSource.GetName(r.1[p.addr]) == BaseSource.GetName(heap[p.addr])
              && |r.0.sources| == |sc.sources| - 1
              && multiset(r.0.sources) == multiset(sc.sources) - multiset{p}
    ensures forall a :: a in heap && Ref(a) != p ==> r.1[a] == heap[a]
    ensures Live(r.0.sources, r.1)
    ensures Valid(sc) ==> Valid(r.0) && p !in r.0.sources
  {
    if p.Null? then (sc, heap)
    else
      match Find(sc.sources, p)
      case None => (sc, heap)
      case Some(i) =>
        var src := heap[p.addr];
        var heap' := if BaseSource.IsActive(src) then heap[p.addr := BaseSource.Stop(src)] else heap;
        var rest := DropAt(sc.sources, i);
        RemovedSlotProperties(sc.sources, i, heap, heap');
        (sc.(sources := rest), heap')
  }

  /** The list with position `i` dropped, as `erase` leaves it. */
  function DropAt(s: seq<Ptr>, i: nat): (r: seq<Ptr>)
    requires i < |s|
    ensures |r| == |s| - 1
    ensures forall k :: 0 <= k < i ==> r[k] == s[k]
    ensures forall k :: i <= k < |r| ==> r[k] == s[k + 1]
  {
    s[..i] + s[i + 1..]
  }

  /** Facts about dropping position `i` from a list: liveness carries over,
      the multiset loses exactly that entry, and the list invariant is kept
      with the dropped pointer gone. */
  lemma RemovedSlotProperties(s: seq<Ptr>, i: nat, heap: SourceHeap, heap': SourceHeap)
    requires i < |s|
    requires Live(s, heap) && heap'.Keys == heap.Keys
    ensures Live(DropAt(s, i), heap')
    ensures multiset(DropAt(s, i)) == multiset(s) - multiset{s[i]}
    ensures NoNull(s) && NoDuplicates(s) ==>
              NoNull(DropAt(s, i)) && NoDuplicates(DropAt(s, i)) && s[i] !in DropAt(s, i)
  {
    var rest := DropAt(s, i);
    assert s == s[..i] + [s[i]] + s[i + 1..];
    assert rest == s[..i] + s[i + 1..];
    assert multiset(s) == multiset(s[..i]) + multiset{s[i]} + multiset(s[i + 1..]);
    if NoNull(s) && NoDuplicates(s) {
      assert forall k :: 0 <= k < |rest| ==> rest[k] != s[i];
      forall k1, k2 | 0 <= k1 < k2 < |rest|
        ensures rest[k1] != rest[k2]
      {
        var j1 := if k1 < i then k1 else k1 + 1;
        var j2 := if k2 < i then k2 else k2 + 1;
        assert rest[k1] == s[j1] && rest[k2] == s[j2] && j1 < j2;
      }
    }
  }

  /** The position of the first entry that is non-null and active, scanning
      from the front, or nothing when no entry qualifies. */
  function FirstActive(s: seq<Ptr>, heap: SourceHeap): (r: Option<nat>)
    requires Live(s, heap)
    ensures r.Some? ==> r.value < |s| && ActiveIn(s[r.value], heap)
    ensures r.Some? ==> forall j :: 0 <= j < r.value ==> !ActiveIn(s[j], heap)
    ensures r.None? ==> forall j :: 0 <= j < |s| ==> !ActiveIn(s[j], heap)
  {
    if |s| == 0 then None
    else if ActiveIn(s[0], heap) then Some(0)
    else
      assert Live(s[1..], heap) by {
        forall k | 0 <= k < |s[1..]| && s[1..][k].Ref?
          ensures s[1..][k].addr in heap
        {
          assert s[1..][k] == s[k + 1];
        }
      }
      match FirstActive(s[1..], heap)
      case None =>
        assert forall j :: 1 <= j < |s| ==> s[j] == s[1..][j - 1];
        None
      case Some(i) =>
        assert forall j :: 1 <= j < i + 1 ==> s[j] == s[1..][j - 1];
        Some(i + 1)
  }

  /** The video composition rule: an uninitialized or empty scene renders
      nothing; otherwise the first active source in list order supplies the
      frame, and a scene with no active source renders nothing. */
  function RenderVideo(sc: Scene, heap: SourceHeap, frame: VideoFrame, now: int): (r: (bool, VideoFrame))
    requires Live(sc.sources, heap)
    ensures !sc.initialized || |sc.sources| == 0 ==> r == (false, frame)
    ensures r.0 <==> sc.initialized && exists i :: 0 <= i < |sc.sources| && ActiveIn(sc.sources[i], heap)
    ensures !r.0 ==> r.1 == frame
    ensures r.0 ==> ValidRgbaVideo(r.1) && r.1.width == 1920 && r.1.height == 1080
  {
    if !sc.initialized || |sc.sources| == 0 then (false, frame)
    else
      match FirstActive(sc.sources, heap)
      case None => (false, frame)
      case Some(i) => BaseSource.GetVideoFrame(heap[sc.sources[i].addr], frame, now)
  }

  /** The audio composition rule, the same scan as for video. */
  function RenderAudio(sc: Scene, heap: SourceHeap, frame: AudioFrame, now: int): (r: (bool, AudioFrame))
    requires Live(sc.sources, heap)
    ensures !sc.initialized || |sc.sources| == 0 ==> r == (false, frame)
    ensures r.0 <==> sc.initialized && exists i :: 0 <= i < |sc.sources| && ActiveIn(sc.sources[i], heap)
    ensures !r.0 ==> r.1 == frame
    ensures r.0 ==> ValidAudio(r.1) && r.1.samples == 480 && r.1.sampleRate == 48000
  {
    if !sc.initialized || |sc.sources| == 0 then (false, frame)
    else
      match FirstActive(sc.sources, heap)
      case None => (false, frame)
      case Some(i) => BaseSource.GetAudioFrame(heap[sc.sources[i].addr], frame, now)
  }

  /** The render loop as written: walk the list and return the frame getter's
      answer for the first non-null active source. Whenever `i` is the first
      active position, the answer is exactly that source's getter result. */
  method RenderVideoScan(sc: Scene, heap: SourceHeap, frame: VideoFrame, now: int)
    returns (ok: bool, out: VideoFrame)
    requires Live(sc.sources, heap)
    ensures forall i :: 0 <= i < |sc.sources| && sc.initialized && ActiveIn(sc.sources[i], heap)
                        && (forall j :: 0 <= j < i ==> !ActiveIn(sc.sources[j], heap))
                        ==> (ok, out) == BaseSource.GetVideoFrame(heap[sc.sources[i].addr], frame, now)
    ensures (ok, out) == RenderVideo(sc, heap, frame, now)
  {
    if !sc.initialized || |sc.sources| == 0 {
      return false, frame;
    }
    var k := 0;
    while k < |sc.sources|
      invariant 0 <= k <= |sc.sources|
      invariant forall j :: 0 <= j < k ==> !ActiveIn(sc.sources[j], heap)
    {
      var p := sc.sources[k];
      if p.Ref? && BaseSource.IsActive(heap[p.addr]) {
        var r := BaseSource.GetVideoFrame(heap[p.addr], frame, now);
        return r.0, r.1;
      }
      k := k + 1;
    }
    return false, frame;
  }

  /** The audio render loop as written, with the same guarantee. */
  method RenderAudioScan(sc: Scene, heap: SourceHeap, frame: AudioFrame, now: int)
    returns (ok: bool, out: AudioFrame)
    requires Live(sc.sources, heap)
    ensures forall i :: 0 <= i < |sc.sources| && sc.initialized && ActiveIn(sc.sources[i], heap)
                        && (forall j :: 0 <= j < i ==> !ActiveIn(sc.sources[j], heap))
                        ==> (ok, out) == BaseSource.GetAudioFrame(heap[sc.sources[i].addr], frame, now)
    ensures (ok, out) == RenderAudio(sc, heap, frame, now)
  {
    if !sc.initialized || |sc.sources| == 0 {
      return false, frame;
    }
    var k := 0;
    while k < |sc.sources|
      invariant 0 <= k <= |sc.sources|
      invariant forall j :: 0 <= j < k ==> !ActiveIn(sc.sources[j], heap)
    {
      var p := sc.sources[k];
      if p.Ref? && BaseSource.IsActive(heap[p.addr]) {
        var r := BaseSource.GetAudioFrame(heap[p.addr], frame, now);
        return r.0, r.1;
      }
      k := k + 1;
    }
    return false, frame;
  }

  /** Stops every listed source that is active; every other object, and
      every listed source that was already inactive, is left exactly as it
      was. */
  function StopListed(s: seq<Ptr>, heap: SourceHeap): (h: SourceHeap)
    requires Live(s, heap)
    ensures h.Keys == heap.Keys
    ensures forall a :: a in heap ==> h[a] == heap[a].(active := heap[a].active && Ref(a) !in s)
    decreases |s|
  {
    if |s| == 0 then heap
    else
      var p := s[0];
      var heap1 := if ActiveIn(p, heap) then heap[p.addr := BaseSource.Stop(heap[p.addr])] else heap;
      assert Live(s[1..], heap1) by {
        forall k | 0 <= k < |s[1..]| && s[1..][k].Ref?
          ensures s[1..][k].addr in heap1
        {
          assert s[1..][k] == s[k + 1];
        }
      }
      assert forall q :: q in s <==> q == s[0] || q in s[1..] by {
        assert s == [s[0]] + s[1..];
      }
      StopListed(s[1..], heap1)
  }

  /** Shutting down an uninitialized scene does nothing. Otherwise every
      listed source ends inactive, no unlisted source changes, the list is
      kept and the scene is no longer initialized. */
  function Shutdown(sc: Scene, heap: SourceHeap): (r: (Scene, SourceHeap))
    requires Live(sc.sources, heap)
    ensures !sc.initialized ==> r == (sc, heap)
    ensures r.1.Keys == heap.Keys
    ensures sc.initialized ==> !r.0.initialized && r.0.sources == sc.sources && r.0.name == sc.name
    ensures sc.initialized ==>
              forall a :: a in heap ==> r.1[a] == heap[a].(active := heap[a].active && Ref(a) !in sc.sources)
    ensures Live(r.0.sources, r.1)
  {
    if !sc.initialized then (sc, heap)
    else (sc.(initialized := false), StopListed(sc.sources, heap))
  }

  // ---------------------------------------------------------------------
  // Properties relating several operations
  // ---------------------------------------------------------------------

  /** Adding the same pointer twice is the same as adding it once. */
  lemma AddSourceIdempotent(sc: Scene, p: Ptr)
    ensures AddSource(AddSource(sc, p), p) == AddSource(sc, p)
  {
  }

  function AddRepeatedly(sc: Scene, p: Ptr, n: nat): Scene
    decreases n
  {
    if n == 0 then sc else AddSource(AddRepeatedly(sc, p, n - 1), p)
  }

  /** Any number of additions of one pointer raise the count by at most one,
      and all of them together act like the first one. */
  lemma {:induction false} RepeatedAddGrowsByAtMostOne(sc: Scene, p: Ptr, n: nat)
    ensures n > 0 ==> AddRepeatedly(sc, p, n) == AddSource(sc, p)
    ensures |AddRepeatedly(sc, p, n).sources| <= |sc.sources| + 1
    decreases n
  {
    if n > 1 {
      RepeatedAddGrowsByAtMostOne(sc, p, n - 1);
      AddSourceIdempotent(sc, p);
    }
  }

  lemma {:induction false} WithoutAbsent(s: seq<Ptr>, p: Ptr)
    requires p !in s
    ensures Without(s, p) == s
    decreases |s|
  {
    if |s| > 0 {
      assert s == [s[0]] + s[1..];
      WithoutAbsent(s[1..], p);
    }
  }

  lemma {:induction false} WithoutConcat(a: seq<Ptr>, b: seq<Ptr>, p: Ptr)
    ensures Without(a + b, p) == Without(a, p) + Without(b, p)
    decreases |a|
  {
    if |a| == 0 {
      assert a + b == b;
    } else {
      assert (a + b)[1..] == a[1..] + b;
      WithoutConcat(a[1..], b, p);
    }
  }

  /** In a list without duplicates, the entry at `i` occurs nowhere after `i`. */
  lemma UniqueAfter(s: seq<Ptr>, i: nat)
    requires NoDuplicates(s) && i < |s|
    ensures s[i] !in s[i + 1..]
  {
  }

  /** On a valid scene, removal unlinks exactly the given pointer and keeps
      every other source in its original relative order. */
  lemma RemoveKeepsOrder(sc: Scene, heap: SourceHeap, p: Ptr)
    requires Valid(sc) && Live(sc.sources, heap)
    ensures RemoveSource(sc, heap, p).0.sources == Without(sc.sources, p)
  {
    var s := sc.sources;
    if p.Null? || p !in s {
      assert p !in s by {
        assert forall k :: 0 <= k < |s| ==> s[k] != p;
      }
      WithoutAbsent(s, p);
    } else {
      var i := Find(s, p).value;
      var tail := s[i + 1..];
      assert RemoveSource(sc, heap, p).0.sources == s[..i] + tail;
      assert s == s[..i] + ([p] + tail);
      WithoutConcat(s[..i], [p] + tail, p);
      WithoutAbsent(s[..i], p);
      assert ([p] + tail)[1..] == tail;
      assert Without([p] + tail, p) == Without(tail, p);
      UniqueAfter(s, i);
      WithoutAbsent(tail, p);
    }
  }

  /** Removal undoes addition: adding a fresh pointer and removing it again
      gives back the original scene, with that source left inactive. */
  lemma AddThenRemoveRestores(sc: Scene, heap: SourceHeap, p: Ptr)
    requires Live(sc.sources, heap)
    requires p.Ref? && p.addr in heap && p !in sc.sources
    ensures Live(AddSource(sc, p).sources, heap)
    ensures RemoveSource(AddSource(sc, p), heap, p).0 == sc
    ensures !BaseSource.IsActive(RemoveSource(AddSource(sc, p), heap, p).1[p.addr])
  {
  }

  /** After `removeSource(p)` no render can draw on `p`: the first active
      entry of the resulting scene, if any, is some other source. */
  lemma RemovedSourceIsNeverRendered(sc: Scene, heap: SourceHeap, p: Ptr)
    requires Live(sc.sources, heap)
    ensures var r := RemoveSource(sc, heap, p);
            var first := FirstActive(r.0.sources, r.1);
            first.Some? ==> r.0.sources[first.value] != p
  {
  }

  /** The first active position is determined by the activity of the entries
      up to it: an active entry with only inactive entries before it is the
      one the scan picks. */
  lemma FirstActiveIsUnique(s: seq<Ptr>, heap: SourceHeap, i: nat)
    requires Live(s, heap) && i < |s|
    requires ActiveIn(s[i], heap)
    requires forall j :: 0 <= j < i ==> !ActiveIn(s[j], heap)
    ensures FirstActive(s, heap) == Some(i)
  {
  }

  /** Sources after the first active one are never consulted: two heaps that
      agree on every entry up to and including the first active one give the
      same rendered frame. */
  lemma RenderIgnoresLaterSources(sc: Scene, h1: SourceHeap, h2: SourceHeap, i: nat,
                                  vf: VideoFrame, af: AudioFrame, now: int)
    requires Live(sc.sources, h1) && Live(sc.sources, h2)
    requires FirstActive(sc.sources, h1) == Some(i)
    requires forall j :: 0 <= j <= i && sc.sources[j].Ref? ==> h2[sc.sources[j].addr] == h1[sc.sources[j].addr]
    ensures RenderVideo(sc, h2, vf, now) == RenderVideo(sc, h1, vf, now)
    ensures RenderAudio(sc, h2, af, now) == RenderAudio(sc, h1, af, now)
  {
  }

  /** A shut-down scene stays silent even if it is initialized again: its
      sources were all stopped and nothing restarted them. */
  lemma ShutdownSilencesScene(sc: Scene, heap: SourceHeap, vf: VideoFrame, af: AudioFrame, now: int)
    requires sc.initialized && Live(sc.sources, heap)
    ensures var (down, h) := Shutdown(sc, heap);
            var again := Initialize(down).1;
            && !RenderVideo(again, h, vf, now).0
            && !RenderAudio(again, h, af, now).0
  {
  }

  /** The concrete walk-through: an empty initialized scene renders nothing;
      with one started source it renders that source's 1920x1080 picture;
      once the source is stopped it renders nothing again. */
  lemma OneSourceScenario(name: string, sourceName: string, addr: nat, f: VideoFrame, now: int)
    ensures var empty := Initialize(New(name)).1;
            var one := AddSource(empty, Ref(addr));
            var h0 := map[addr := BaseSource.New(sourceName)];
            var h1 := h0[addr := BaseSource.Start(h0[addr])];
            var h2 := h1[addr := BaseSource.Stop(h1[addr])];
            && one.sources == [Ref(addr)]
            && !RenderVideo(empty, h0, f, now).0
            && RenderVideo(one, h1, f, now).0
            && RenderVideo(one, h1, f, now).1.width == 1920
            && RenderVideo(one, h1, f, now).1.height == 1080
            && !RenderVideo(one, h2, f, now).0
  {
  }

  // ---------------------------------------------------------------------
  // Sequences of scene calls
  // ---------------------------------------------------------------------

  /** One call a client can make on a scene. */
  datatype Call =
    | CallInitialize
    | CallShutdown
    | CallAdd(added: Ptr)
    | CallRemove(removed: Ptr)
    | CallRenderVideo(vframe: VideoFrame, vnow: int)
    | CallRenderAudio(aframe: AudioFrame, anow: int)

  /** Every pointer a call passes is null or refers to a live object. */
  predicate CallsLive(calls: seq<Call>, heap: SourceHeap) {
    forall i :: 0 <= i < |calls| ==> CallLive(calls[i], heap)
  }

  predicate CallLive(c: Call, heap: SourceHeap) {
    match c
    case CallAdd(p) => p.Ref? ==> p.addr in heap
    case CallRemove(p) => p.Ref? ==> p.addr in heap
    case _ => true
  }

  function Step(sc: Scene, heap: SourceHeap, c: Call): (r: (Scene, SourceHeap))
    requires Live(sc.sources, heap) && CallLive(c, heap)
    ensures r.1.Keys == heap.Keys
    ensures Live(r.0.sources, r.1)
    ensures Valid(sc) ==> Valid(r.0)
  {
    match c
    case CallInitialize => (Initialize(sc).1, heap)
    case CallShutdown => Shutdown(sc, heap)
    case CallAdd(p) => (AddSource(sc, p), heap)
    case CallRemove(p) => RemoveSource(sc, heap, p)
    case CallRenderVideo(_, _) => (sc, heap)
    case CallRenderAudio(_, _) => (sc, heap)
  }

  function Run(sc: Scene, heap: SourceHeap, calls: seq<Call>): (Scene, SourceHeap)
    requires Live(sc.sources, heap) && CallsLive(calls, heap)
    decreases |calls|
  {
    if |calls| == 0 then (sc, heap)
    else
      var (sc', heap') := Step(sc, heap, calls[0]);
      assert CallsLive(calls[1..], heap') by {
        forall i | 0 <= i < |calls[1..]|
          ensures CallLive(calls[1..][i], heap')
        {
          assert calls[1..][i] == calls[i + 1];
        }
      }
      Run(sc', heap', calls[1..])
  }

  /** Whatever a client does, the scene never holds a null pointer or the
      same source twice, every listed source stays alive, the set of source
      objects is unchanged, and the scene keeps its name. */
  lemma {:induction false} CallsKeepListInvariant(sc: Scene, heap: SourceHeap, calls: seq<Call>)
    requires Valid(sc) && Live(sc.sources, heap) && CallsLive(calls, heap)
    ensures Valid(Run(sc, heap, calls).0)
    ensures GetName(Run(sc, heap, calls).0) == GetName(sc)
    ensures Live(Run(sc, heap, calls).0.sources, Run(sc, heap, calls).1)
    ensures Run(sc, heap, calls).1.Keys == heap.Keys
    decreases |calls|
  {
    if |calls| > 0 {
      var (sc', heap') := Step(sc, heap, calls[0]);
      assert CallsLive(calls[1..], heap') by {
        forall i | 0 <= i < |calls[1..]|
          ensures CallLive(calls[1..][i], heap')
        {
          assert calls[1..][i] == calls[i + 1];
        }
      }
      CallsKeepListInvariant(sc', heap', calls[1..]);
    }
  }
}
