# SimpleOBS core in Dafny

A model of the three small state machines at the heart of SimpleOBS, a
media-composition engine:

- **BaseSource** (`base_source.dfy`): the built-in source. An `active` flag
  gates frame production. `start` and `stop` are idempotent, and `shutdown`
  forces the source inactive. While active, the frame getters fill a frame
  with fixed layout values: a 1920×1080 RGBA picture with a 7680-byte stride,
  and 480 samples of mono audio at 48 kHz.
- **SceneImpl** (`scene_impl.dfy`): a scene holds an ordered list of shared
  source pointers and an `initialized` flag.
  - `addSource` refuses null and refuses a pointer already listed, compared by
    identity.
  - `removeSource` stops a listed source, then unlinks it.
  - `shutdown`, when the scene is initialized, stops every active listed
    source. On an uninitialized scene it does nothing.
  - Both `render` overloads return the frame of the first active source in
    list order ("first active wins").
- **Engine** (`engine.dfy`): the coordinator.
  - It holds a streaming flag and the handle of the background loop thread.
  - It keeps a table from scene names to scenes, and `createScene` overwrites
    an existing entry.
  - Its factory methods for sources, encoders, outputs and filters always
    return null.

`simple_obs.dfy` mirrors the shared types of `include/SimpleOBS.h`: frame
records, plane pointers and nullable shared pointers.

Modelling choices:

- Shared objects are modelled with an explicit heap. A `Ptr` is `Null` or
  `Ref(addr)`, and two `Ref`s are equal exactly when they name the same
  object, so comparing pointers is reference identity, as `std::find` over
  `shared_ptr`s does.
- Sources live in a `SourceHeap` (address → `BaseSource.Source`). A source
  may sit in several scenes. Scene operations that stop sources take the heap
  and return it updated.
- Scenes created by the engine live in the engine's scene heap. The name
  table maps each name to a scene address.
- The frame getters' wall-clock reading is a parameter `now`.
- The static pixel and silence buffers are opaque plane tags
  (`RedRgbaBuffer`, `SilenceBuffer`). Their contents are not modelled.
- The background streaming thread is reduced to two flags: `streaming`, and
  whether a joinable thread handle is held.
  - Assigning a new `std::thread` over a joinable one would terminate the
    process. The model keeps that outcome (`Terminated`) so it can prove the
    outcome unreachable.
- The engine's four factory methods have identical bodies. They are modelled
  as one `Engine.CreateComponent` with a `ComponentKind` argument.
- The frame fields are C++ `int`s. Every value the code stores (1920, 1080,
  7680, 0, 480, 48000, 1) fits in 32 bits, so no wrap-around is modelled.

Notes on the code:

- Scenes are kept in an `unordered_map`, so the table keeps no order.
- The streaming loop body renders nothing.
- The four factories return null for every id and name.
- `SceneImpl::shutdown` keeps the source list. It only stops the sources and
  clears `initialized`.

## Model

| member | source | states |
|---|---|---|
| BaseSource.New | src/sources/BaseSource.cpp:8-10 | A newly constructed source is inactive, and `getName` returns the constructor's name. |
| BaseSource.Initialize | src/sources/BaseSource.cpp:13-16 | `initialize` always succeeds and changes nothing. |
| BaseSource.Shutdown | src/sources/BaseSource.cpp:18-21 | `shutdown` always leaves the source inactive, whatever its state, and keeps its name. |
| BaseSource.Start | src/sources/BaseSource.cpp:78-81 | After `start`, `isActive()` is true. The name is kept. |
| BaseSource.Stop | src/sources/BaseSource.cpp:83-86 | After `stop`, `isActive()` is false. The name is kept. |
| BaseSource.StartStopIdempotent | src/sources/BaseSource.cpp:78-90 | `start` twice equals `start` once, and likewise for `stop`. Each one undoes the other. |
| BaseSource.GetVideoFrame | src/sources/BaseSource.cpp:23-51 | Succeeds exactly when the source is active. On failure the caller's frame is untouched. On success the frame is 1920×1080 with stride 7680 and format 0, so stride ≥ width×4. Plane 0 is the static RGBA buffer and the timestamp is the clock reading. Planes 1–3 and their strides are untouched. |
| BaseSource.GetAudioFrame | src/sources/BaseSource.cpp:53-76 | Succeeds exactly when the source is active. On failure the frame is untouched. On success the frame has 480 samples at 48000 Hz and 1 channel. Channel 0 is the silence buffer, and every claimed channel has a buffer. Channels 1–7 are untouched. |
| BaseSource.StoppedSourceRefusesUntilStart | src/sources/BaseSource.cpp:23-86 | Take an inactive source and any sequence of calls without `start`. Every video and audio request in it fails, and the source stays inactive. |
| BaseSource.IdentityIsStable | src/sources/BaseSource.cpp:8-10 | No sequence of calls changes the name. |
| BaseSource.GetName | src/sources/BaseSource.cpp:10 | `getName` returns the name the source was constructed with. |
| BaseSource.GetId | src/sources/BaseSource.cpp:11 | `getId` returns "base_source" for every source. |
| BaseSource.IsActive | src/sources/BaseSource.cpp:88-90 | `isActive` reports the activity flag that `start`, `stop` and `shutdown` set. |
| SceneImpl.New | src/core/SceneImpl.cpp:7-10 | A new scene carries its name, holds no sources, is uninitialized, and satisfies the list invariant. |
| SceneImpl.GetName | src/core/SceneImpl.cpp:17-19 | `getName` returns the name the scene was constructed with. |
| SceneImpl.GetId | src/core/SceneImpl.cpp:21-23 | `getId` returns "scene_impl" for every scene. |
| SceneImpl.Initialize | src/core/SceneImpl.cpp:25-34 | Always returns true and leaves the scene initialized, with name and list kept. On an initialized scene it changes nothing. |
| SceneImpl.Find | src/core/SceneImpl.cpp:59-61 | The search finds the first position holding the pointer, or reports absence exactly when the pointer is not listed. |
| SceneImpl.AddSource | src/core/SceneImpl.cpp:53-68 | Null or an already-listed pointer leaves the scene unchanged. Any other pointer is appended at the end, and the earlier entries keep their order. Afterwards a non-null pointer is listed. The no-null, no-duplicates invariant is kept. |
| SceneImpl.AddSourceIdempotent | src/core/SceneImpl.cpp:59-64 | Adding the same pointer twice equals adding it once. |
| SceneImpl.RepeatedAddGrowsByAtMostOne | src/core/SceneImpl.cpp:53-66 | Any number n > 0 of adds of one pointer acts like a single add, and the count rises by at most one. |
| SceneImpl.DropAt | src/core/SceneImpl.cpp:82 | Erasing position i shifts every later entry down by one and keeps every earlier one in place. |
| SceneImpl.RemoveSource | src/core/SceneImpl.cpp:70-85 | Null or an absent pointer changes neither scene nor heap. A listed source ends inactive with its name kept, and exactly one occurrence leaves the list. No other source object changes. Liveness is kept. On a valid scene the pointer is no longer listed and the invariant holds. |
| SceneImpl.Without | src/core/SceneImpl.cpp:75-82 | A reference filter: the result holds exactly the entries different from the pointer. |
| SceneImpl.RemoveKeepsOrder | src/core/SceneImpl.cpp:75-82 | On a valid scene, the list after removal is the old list with that pointer filtered out. The other sources keep their relative order. |
| SceneImpl.AddThenRemoveRestores | src/core/SceneImpl.cpp:53-85 | Adding a fresh live pointer and then removing it gives back the original scene. The removed source is left inactive. |
| SceneImpl.FirstActive | src/core/SceneImpl.cpp:92-97 | Finds the first non-null active entry in list order, with every earlier entry inactive. Reports none only when no entry is active. |
| SceneImpl.FirstActiveIsUnique | src/core/SceneImpl.cpp:92-97 | An active entry with only inactive entries before it is the one the scan picks. |
| SceneImpl.RenderVideo | src/core/SceneImpl.cpp:87-100 | An uninitialized or empty scene returns false with the frame untouched. Otherwise it succeeds exactly when some listed source is active, and then delivers a valid 1920×1080 RGBA frame. On failure the frame is untouched. |
| SceneImpl.RenderAudio | src/core/SceneImpl.cpp:102-115 | The audio overload: false when uninitialized or empty. Otherwise true exactly when some listed source is active, and then it delivers a valid 480-sample, 48 kHz block. |
| SceneImpl.RenderVideoScan | src/core/SceneImpl.cpp:87-100 | The loop as written. When position i is the first active one, its result is exactly that source's `getVideoFrame` result. It agrees with `RenderVideo` on every input. |
| SceneImpl.RenderAudioScan | src/core/SceneImpl.cpp:102-115 | The audio loop as written. When position i is the first active one, its result is exactly that source's `getAudioFrame` result. It agrees with `RenderAudio` on every input. |
| SceneImpl.RenderIgnoresLaterSources | src/core/SceneImpl.cpp:92-114 | Take two heaps that agree on every entry up to and including the first active one. They render the same video and audio, so sources after the first active one are never queried. |
| SceneImpl.RemovedSourceIsNeverRendered | src/core/SceneImpl.cpp:70-99 | After `removeSource(p)`, the first active entry of the scene, if any, is not `p`. |
| SceneImpl.StopListed | src/core/SceneImpl.cpp:43-48 | Every listed active source becomes inactive. Every unlisted source, and every listed source that was already inactive, is left exactly as it was. |
| SceneImpl.Shutdown | src/core/SceneImpl.cpp:36-51 | On an uninitialized scene it is a no-op. Otherwise every listed source ends inactive and nothing else in the heap changes. The list and name are kept, and the scene becomes uninitialized. |
| SceneImpl.ShutdownSilencesScene | src/core/SceneImpl.cpp:36-115 | After `shutdown` and a fresh `initialize`, both render overloads return false: every source was stopped. |
| SceneImpl.OneSourceScenario | src/core/SceneImpl.cpp:53-100 | An empty initialized scene renders false. With one started source it renders a 1920×1080 frame. After `stop` it renders false again. |
| SceneImpl.CallsKeepListInvariant | src/core/SceneImpl.cpp:17-85 | Under any sequence of scene calls, the list never holds null or a duplicate, and every listed source stays live. The set of source objects is unchanged, and the name is kept. |
| Engine.New | src/core/Engine.cpp:13 | A constructed engine is idle, has no scenes, and satisfies the engine invariant. |
| Engine.IsStreaming | src/core/Engine.cpp:97-99 | `isStreaming` reports the streaming flag that `startStreaming`, `stopStreaming` and `shutdown` set. |
| Engine.Initialize | src/core/Engine.cpp:15-22 | `initialize` always returns true and changes nothing. |
| Engine.Shutdown | src/core/Engine.cpp:24-27 | After `shutdown` the engine is not streaming. Its scenes are kept and the invariant is preserved. |
| Engine.CreateScene | src/core/Engine.cpp:29-34 | Returns a non-null pointer to a scene newly allocated at a fresh address. That scene is named `name`, and the table maps `name` to it, replacing any earlier entry. Every other name keeps its entry, existing scene objects are untouched, and streaming state is unchanged. |
| Engine.CreateComponent | src/core/Engine.cpp:36-67 | `createSource`, `createEncoder`, `createOutput` and `createFilter` return null for every id and name, and leave the engine unchanged. |
| Engine.StartStreaming | src/core/Engine.cpp:69-82 | While streaming it returns false with nothing changed. From a clean idle state it returns true, starts streaming and holds the loop thread, with scenes unchanged. It terminates exactly when idle but still holding a joinable thread. |
| Engine.StopStreaming | src/core/Engine.cpp:84-95 | While idle it is a no-op. While streaming it leaves the engine not streaming with no joinable thread. Scenes are untouched. |
| Engine.StartTwiceIsRefused | src/core/Engine.cpp:69-82 | From a reachable idle engine, the first start succeeds. A second start is refused, and the engine stays streaming. |
| Engine.StartThenStopRestores | src/core/Engine.cpp:69-95 | On a reachable idle engine, stop undoes start exactly. |
| Engine.CallsKeepInvariant | src/core/Engine.cpp:13-99 | From a reachable state, no sequence of engine calls terminates the process, and the invariant holds afterwards. `isStreaming()` equals what the latest start or stop call dictates. |

## Left out

- The streaming thread's timing, the 16 ms sleep and the atomic flag
  (src/core/Engine.cpp:76-78, 90-92, 102-113). These are concurrency and
  timing. They are reduced to the flag and thread-handle transitions. The
  loop body renders nothing, so per-tick rendering is not modelled.
- The unused `mutex_` member of the engine. The scene takes no locks, so
  there is no locking to model.
- The render buffers, source-introspection helpers and compositing routines
  declared in include/SceneImpl.h. They have no implementation in the code.
- Frame timestamps: the wall-clock reading is an arbitrary parameter `now`.
- The contents of the static pixel and silence buffers. Only the layout
  fields and which buffer plane 0 points at are modelled.
- The engine singleton, its PIMPL forwarding (src/core/Engine.cpp:122-168),
  and destructors. No modelled operation destroys an object, so the scene
  destructor's call to `shutdown` (src/core/SceneImpl.cpp:12-15) never
  happens in the model.
- Logging (src/core/Logger.cpp, include/Logger.h), process bootstrap
  (src/main.cpp) and the whitespace clean-up script. These are I/O.
- Polymorphic sources: the scene is modelled over the one source
  implementation in the code, `BaseSource`.
- Engine.CreateScene: the scene heap never frees a displaced scene, because
  `shared_ptr` lifetime is not modelled. In the code, overwriting a name
  drops the table's reference to the old scene. If that was the last
  reference, the old scene is destroyed, and its destructor runs `shutdown`.
  That stops the old scene's active sources, which may also be listed in
  other scenes. The model does not do this: displaced scenes stay in the
  heap unchanged, and their sources keep running.
- Engine.StartStreaming: exceptions thrown while creating the loop thread
  are not modelled. The code sets the streaming flag before it constructs
  the thread (src/core/Engine.cpp:75-78). If that constructor throws,
  `isStreaming()` stays true with no joinable thread, which the model's
  invariant rules out.
- Engine.CreateScene and SceneImpl.AddSource: allocation failures are not
  modelled. These are `make_shared` (src/core/Engine.cpp:30) and
  `push_back` (src/core/SceneImpl.cpp:66) throwing.
