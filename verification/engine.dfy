/**
  The engine coordinator as a pure state record. The streaming flag moves
  between idle and running; the background loop thread is reduced to whether
  a joinable thread handle exists. Scenes are shared objects: the name table
  maps each name to the address of a scene in the scene heap, and creating a
  scene allocates a fresh address.
*/
module Engine {
  import opened SimpleObs
  import SceneImpl

  datatype Impl = Impl(
    streaming: bool,
    loopThreadJoinable: bool,
    scenes: map<string, nat>,
    sceneHeap: map<nat, SceneImpl.Scene>,
    nextScene: nat)

  /** What `startStreaming` can lead to. Assigning a new thread over one that
      is still joinable ends the process (`std::terminate`); that outcome is
      kept so that its absence can be proved. */
  datatype StartOutcome = Started(ok: bool, engine: Impl) | Terminated

  /** The four kinds of component the factory methods are asked for. */
  datatype ComponentKind = SourceKind | EncoderKind | OutputKind | FilterKind

  /** The state every reachable engine is in: a loop thread is joinable
      exactly while streaming, every table entry names a live scene, and the
      allocation counter is past every used address. */
  predicate Inv(e: Impl) {
    && e.streaming == e.loopThreadJoinable
    && (forall n :: n in e.scenes ==> e.scenes[n] in e.sceneHeap)
    && (forall a :: a in e.sceneHeap ==> a < e.nextScene)
  }

  /** A constructed engine: idle, no loop thread, no scenes. */
  function New(): (e: Impl)
    ensures !IsStreaming(e) && e.scenes == map[]
    ensures Inv(e)
  {
    Impl(false, false, map[], map[], 0)
  }

  /** Whether the engine is streaming: the value of the streaming flag. */
  function IsStreaming(e: Impl): (b: bool)
    ensures b == e.streaming
  {
    e.streaming
  }

  /** Nothing to acquire: reports success and changes nothing. */
  function Initialize(e: Impl): (r: (bool, Impl))
    ensures r.0 && r.1 == e
  {
    (true, e)
  }

  /** Registers a fresh scene named `name` under that name, replacing any
      earlier entry, and returns a pointer to it. Every other name keeps its
      entry and every existing scene object is left as it was, so a scene
      displaced from the table stays valid for whoever still holds it. */
  function CreateScene(e: Impl, name: string): (r: (Ptr, Impl))
    ensures r.0.Ref?
    ensures Inv(e) ==> r.0.addr !in e.sceneHeap
    ensures r.1.scenes == e.scenes[name := r.0.addr]
    ensures r.0.addr in r.1.sceneHeap && SceneImpl.GetName(r.1.sceneHeap[r.0.addr]) == name
    ensures r.1.sceneHeap[r.0.addr] == SceneImpl.New(name)
    ensures forall n :: n in e.scenes && n != name ==> n in r.1.scenes && r.1.scenes[n] == e.scenes[n]
    ensures Inv(e) ==> forall a :: a in e.sceneHeap ==> a in r.1.sceneHeap && r.1.sceneHeap[a] == e.sceneHeap[a]
    ensures r.1.streaming == e.streaming && r.1.loopThreadJoinable == e.loopThreadJoinable
    ensures Inv(e) ==> Inv(r.1)
  {
    var addr := e.nextScene;
    (Ref(addr), e.(scenes := e.scenes[name := addr],
                   sceneHeap := e.sceneHeap[addr := SceneImpl.New(name)],
                   nextScene := addr + 1))
  }

  /** The factory for sources, encoders, outputs and filters: no kind is
      implemented, so every id and name yields null and the engine is left
      unchanged. */
  function CreateComponent(e: Impl, kind: ComponentKind, id: string, name: string): (r: (Ptr, Impl))
    ensures r.0.Null?
    ensures r.1 == e
  {
    (Null, e)
  }

  /** Refused while streaming, with nothing changed. From idle, sets the flag
      and spawns the loop thread, unless a stale joinable thread is still
      held, which would terminate the process. */
  function StartStreaming(e: Impl): (r: StartOutcome)
    ensures e.streaming ==> r == Started(false, e)
    ensures !e.streaming && !e.loopThreadJoinable ==>
              r.Started? && r.ok && IsStreaming(r.engine) && r.engine.loopThreadJoinable
              && r.engine.scenes == e.scenes && r.engine.sceneHeap == e.sceneHeap
    ensures r.Terminated? <==> !e.streaming && e.loopThreadJoinable
  {
    if e.streaming then Started(false, e)
    else if e.loopThreadJoinable then Terminated
    else Started(true, e.(streaming := true, loopThreadJoinable := true))
  }

  /** A no-op while idle. Otherwise clears the flag and joins the loop
      thread, which observes the flag and exits; afterwards no thread is
      joinable. Scenes are untouched either way. */
  function StopStreaming(e: Impl): (r: Impl)
    ensures !e.streaming ==> r == e
    ensures e.streaming ==> !IsStreaming(r) && !r.loopThreadJoinable
    ensures r.scenes == e.scenes && r.sceneHeap == e.sceneHeap && r.nextScene == e.nextScene
  {
    if !e.streaming then e
    else e.(streaming := false, loopThreadJoinable := false)
  }

  /** Shutdown stops streaming first; the engine is never streaming after it
      and keeps its scenes. */
  function Shutdown(e: Impl): (r: Impl)
    ensures !IsStreaming(r)
    ensures r.scenes == e.scenes && r.sceneHeap == e.sceneHeap
    ensures Inv(e) ==> Inv(r)
  {
    StopStreaming(e)
  }

  /** A second start in a row is refused and leaves the engine streaming. */
  lemma StartTwiceIsRefused(e: Impl)
    requires Inv(e) && !IsStreaming(e)
    ensures StartStreaming(e).Started? && StartStreaming(e).ok
    ensures var e1 := StartStreaming(e).engine;
            StartStreaming(e1) == Started(false, e1) && IsStreaming(e1)
  {
  }

  /** Start and stop undo each other on a reachable idle engine. */
  lemma StartThenStopRestores(e: Impl)
    requires Inv(e) && !IsStreaming(e)
    ensures StartStreaming(e).Started?
    ensures StopStreaming(StartStreaming(e).engine) == e
  {
  }

  // ---------------------------------------------------------------------
  // Sequences of engine calls
  // ---------------------------------------------------------------------

  /** One call a client can make on the engine. */
  datatype Call =
    | CallInitialize
    | CallShutdown
    | CallCreateScene(sceneName: string)
    | CallCreate(kind: ComponentKind, id: string, componentName: string)
    | CallStartStreaming
    | CallStopStreaming

  function Step(e: Impl, c: Call): Option<Impl> {
    match c
    case CallInitialize => Some(Initialize(e).1)
    case CallShutdown => Some(Shutdown(e))
    case CallCreateScene(n) => Some(CreateScene(e, n).1)
    case CallCreate(k, id, n) => Some(CreateComponent(e, k, id, n).1)
    case CallStartStreaming =>
      (match StartStreaming(e)
       case Terminated => None
       case Started(_, e') => Some(e'))
    case CallStopStreaming => Some(StopStreaming(e))
  }

  /** Executes `calls` in order; `None` means the process was terminated. */
  function Run(e: Impl, calls: seq<Call>): Option<Impl>
    decreases |calls|
  {
    if |calls| == 0 then Some(e)
    else
      match Step(e, calls[0])
      case None => None
      case Some(e') => Run(e', calls[1..])
  }

  /** A reference answer for the streaming flag after a sequence of calls,
      read from its end: the latest start or stop call decides; a start
      issued while already streaming changes nothing, so any start leaves the
      engine streaming. Without such calls the flag is as it started. */
  function StreamingAfter(initial: bool, calls: seq<Call>): bool
    decreases |calls|
  {
    if |calls| == 0 then initial
    else
      var last := calls[|calls| - 1];
      if last.CallStartStreaming? then true
      else if last.CallStopStreaming? || last.CallShutdown? then false
      else StreamingAfter(initial, calls[..|calls| - 1])
  }

  lemma {:induction false} RunAppend(e: Impl, calls: seq<Call>, c: Call)
    ensures Run(e, calls + [c]) ==
              match Run(e, calls)
              case None => None
              case Some(e') => Step(e', c)
    decreases |calls|
  {
    if |calls| == 0 {
      assert calls + [c] == [c];
      assert [c][1..] == [];
    } else {
      assert (calls + [c])[1..] == calls[1..] + [c];
      match Step(e, calls[0])
      case None =>
      case Some(e') => RunAppend(e', calls[1..], c);
    }
  }

  /** From any reachable state, no sequence of calls terminates the process,
      the invariant holds after every call, and whether the engine is
      streaming is exactly what the latest start or stop call says. */
  lemma {:induction false} CallsKeepInvariant(e: Impl, calls: seq<Call>)
    requires Inv(e)
    ensures Run(e, calls).Some?
    ensures Inv(Run(e, calls).value)
    ensures IsStreaming(Run(e, calls).value) == StreamingAfter(IsStreaming(e), calls)
    decreases |calls|
  {
    if |calls| > 0 {
      var init := calls[..|calls| - 1];
      var c := calls[|calls| - 1];
      assert calls == init + [c];
      CallsKeepInvariant(e, init);
      RunAppend(e, init, c);
    }
  }
}
