/** One run of the code is one life of the concurrent model. */
module DockerRefines {
  import opened Option
  import opened DockerModel
  import opened DockerLives
  import opened DockerSandboxes

  /** How a create request without a reply went: refused, or lost before or after the daemon
      had made the container. */
  datatype Silence = RefusedByDaemon | LostBefore | LostAfter

  function CreateEvents(r: nat, replied: bool, silence: Silence): seq<Event> {
    if replied then [Send(r), DaemonCreate(r), Reply(r)]
    else match silence
      case RefusedByDaemon => [Send(r), DaemonRefuse(r)]
      case LostBefore => [Send(r), LoseReply(r), DaemonCreate(r)]
      case LostAfter => [Send(r), DaemonCreate(r), LoseReply(r)]
  }

  /** What one call means for the container of run r. */
  function EventsOf(c: Call, r: nat, replied: bool, silence: Silence, gone: bool, ok: bool): seq<Event> {
    match c
    case Create(_, _) => CreateEvents(r, replied, silence)
    case Remove(_) => [Return(r), Event.Remove(r, gone, ok)]
    case _ => []
  }

  function Trace(calls: seq<Call>, r: nat, replied: bool, silence: Silence, gone: bool, ok: bool): seq<Event> {
    if calls == [] then []
    else EventsOf(calls[0], r, replied, silence, gone, ok) + Trace(calls[1..], r, replied, silence, gone, ok)
  }

  lemma {:induction false} TraceAppend(a: seq<Call>, b: seq<Call>, r: nat, replied: bool, silence: Silence, gone: bool, ok: bool)
    ensures Trace(a + b, r, replied, silence, gone, ok)
      == Trace(a, r, replied, silence, gone, ok) + Trace(b, r, replied, silence, gone, ok)
  {
    if a == [] {
      assert a + b == b;
    } else {
      assert (a + b)[1..] == a[1..] + b;
      TraceAppend(a[1..], b, r, replied, silence, gone, ok);
    }
  }

  lemma {:induction false} UsesAreSilent(calls: seq<Call>, id: Id, r: nat, replied: bool, silence: Silence, gone: bool, ok: bool)
    requires forall c :: c in calls ==> UsesOnly(c, id)
    ensures Trace(calls, r, replied, silence, gone, ok) == []
  {
    if calls != [] {
      assert UsesOnly(calls[0], id);
      UsesAreSilent(calls[1..], id, r, replied, silence, gone, ok);
    }
  }

  /** Where the run ends up in the model. */
  function EndOf(w: World, id: Id, silence: Silence, ok: bool): RunPc {
    if !w.workspaceOk then Idle
    else if w.created.Some? then (if ok then Cleaned(id) else Leaked(FailedRemove, id))
    else match silence
      case RefusedByDaemon => Refused
      case _ => Leaked(LostReply, id)
  }

  /** The events of a whole run. */
  lemma {:induction false} ScriptTrace(spec: RunSpec, w: World, ds: Lookup, r: nat, silence: Silence, gone: bool, ok: bool)
    requires ds.Found?
    ensures Trace(Script(spec, w, ds), r, w.created.Some?, silence, gone, ok) ==
      if !w.workspaceOk then []
      else CreateEvents(r, w.created.Some?, silence) + (if w.created.Some? then [Return(r), Event.Remove(r, gone, ok)] else [])
  {
    hide Body, UsesOnly, Opening, CreateEvents, Trace;
    var replied, opening := w.created.Some?, Opening(spec, ds);
    OpeningTrace(spec, ds, r, replied, silence, gone, ok);
    QuietTrace(r, replied, silence, gone, ok);
    if w.workspaceOk {
      if replied {
        var id := w.created.value;
        var body, ending := Body(spec, w, ds.limits, id), [Call.Remove(id), RemoveWorkspace];
        BodyUsesOnly(spec, w, ds.limits, id);
        UsesAreSilent(body, id, r, replied, silence, gone, ok);
        TraceAppend(opening + body, ending, r, replied, silence, gone, ok);
        TraceAppend(opening, body, r, replied, silence, gone, ok);
        EndingTrace(id, r, replied, silence, gone, ok);
      } else {
        TraceAppend(opening, [RemoveWorkspace], r, replied, silence, gone, ok);
      }
    }
  }

  /** MAIN RESULT.  Whatever the outside world answers, the calls of a run, seen from its
      container, are a complete life in the concurrent model: what is proved there of every
      interleaving holds of this code. */
  lemma {:induction false} RunIsOneLife(spec: RunSpec, w: World, ds: Lookup, r: nat, id: Id, silence: Silence, gone: bool, ok: bool)
    requires ds.Found? && (ok ==> gone)
    requires w.created.Some? ==> w.created.value == id
    ensures IsLife(EndOf(w, id, silence, ok), r, Trace(Script(spec, w, ds), r, w.created.Some?, silence, gone, ok))
  {
    hide Trace, Script;
    ScriptTrace(spec, w, ds, r, silence, gone, ok);
  }

  lemma {:induction false} QuietTrace(r: nat, replied: bool, silence: Silence, gone: bool, ok: bool)
    ensures Trace([StageWorkspace], r, replied, silence, gone, ok) == []
    ensures Trace([RemoveWorkspace], r, replied, silence, gone, ok) == []
  {
    assert [StageWorkspace][1..] == [] && [RemoveWorkspace][1..] == [];
  }

  lemma {:induction false} OpeningTrace(spec: RunSpec, ds: Lookup, r: nat, replied: bool, silence: Silence, gone: bool, ok: bool)
    requires ds.Found?
    ensures Trace(Opening(spec, ds), r, replied, silence, gone, ok) == CreateEvents(r, replied, silence)
  {
    var create := Opening(spec, ds)[1];
    assert Opening(spec, ds)[1..] == [create] && [create][1..] == [];
    assert Trace([create], r, replied, silence, gone, ok) == CreateEvents(r, replied, silence) + Trace([], r, replied, silence, gone, ok);
  }

  lemma {:induction false} EndingTrace(id: Id, r: nat, replied: bool, silence: Silence, gone: bool, ok: bool)
    ensures Trace([Call.Remove(id), RemoveWorkspace], r, replied, silence, gone, ok) == [Return(r), Event.Remove(r, gone, ok)]
  {
    assert [Call.Remove(id), RemoveWorkspace][1..] == [RemoveWorkspace] && [RemoveWorkspace][1..] == [];
    assert Trace([RemoveWorkspace], r, replied, silence, gone, ok) == [];
  }
}
