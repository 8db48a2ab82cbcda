/** The life of one run, event by event. */
module DockerLives {
  import opened Option
  import opened DockerModel

  /** The event is one of run r. */
  predicate OfRun(e: Event, r: nat) {
    match e
    case Send(q) => q == r
    case DaemonCreate(q) => q == r
    case DaemonRefuse(q) => q == r
    case Reply(q) => q == r
    case LoseReply(q) => q == r
    case Return(q) => q == r
    case Remove(q, _, _) => q == r
    case _ => false
  }

  function Own(e: Event, r: nat): seq<Event> { if OfRun(e, r) then [e] else [] }

  function Life(es: seq<Event>, r: nat): seq<Event> {
    if es == [] then [] else Own(es[0], r) + Life(es[1..], r)
  }

  /** The events of a run that lead to where it stands.  Once the reply is in there is no way
      to an end, short of a crash, but one Return and then one Remove. */
  predicate IsLife(pc: RunPc, r: nat, tr: seq<Event>) {
    var held := [Send(r), DaemonCreate(r), Reply(r)];
    match pc
    case Idle => tr == []
    case Creating => tr == [Send(r)]
    case Created(_) => tr == [Send(r), DaemonCreate(r)]
    case Holding(_) => tr == held
    case Removing(_) => tr == held + [Return(r)]
    case Cleaned(_) => tr == held + [Return(r), Remove(r, true, true)]
    case Refused => tr == [Send(r), DaemonRefuse(r)] || tr == [Send(r), LoseReply(r), DaemonRefuse(r)]
    case Pending(cause) => tr == if cause == Crash then [Send(r)] else [Send(r), LoseReply(r)]
    case Leaked(cause, _) =>
      match cause
      case LostReply => tr == [Send(r), DaemonCreate(r), LoseReply(r)] || tr == [Send(r), LoseReply(r), DaemonCreate(r)]
      case FailedRemove => tr == held + [Return(r), Remove(r, true, false)] || tr == held + [Return(r), Remove(r, false, false)]
      case Crash => tr == [Send(r), DaemonCreate(r)] || tr == held || tr == held + [Return(r)]
  }

  function PcOf(s: State, r: nat): RunPc { if r < |s.runs| then s.runs[r] else Idle }

  /** Pending after a crash, or after a lost reply, and never after anything else. */
  predicate Sane(pc: RunPc) { pc.Pending? ==> pc.cause != FailedRemove }

  lemma {:induction false} OwnStep(s: State, e: Event, r: nat, tr: seq<Event>)
    requires r < |s.runs| && OfRun(e, r) && Step(s, e).Some? && IsLife(s.runs[r], r, tr) && Sane(s.runs[r])
    ensures IsLife(PcOf(Step(s, e).value, r), r, tr + [e]) && Sane(PcOf(Step(s, e).value, r))
  {
  }

  lemma {:induction false} OtherStep(s: State, e: Event, r: nat, tr: seq<Event>)
    requires r < |s.runs| && !OfRun(e, r) && Step(s, e).Some? && IsLife(s.runs[r], r, tr) && Sane(s.runs[r])
    ensures IsLife(PcOf(Step(s, e).value, r), r, tr) && Sane(PcOf(Step(s, e).value, r))
  {
  }

  lemma {:induction false} AnyStep(s: State, e: Event, r: nat, tr: seq<Event>)
    requires r < |s.runs| && Step(s, e).Some? && IsLife(s.runs[r], r, tr) && Sane(s.runs[r])
    ensures r < |Step(s, e).value.runs|
    ensures IsLife(Step(s, e).value.runs[r], r, tr + Own(e, r)) && Sane(Step(s, e).value.runs[r])
  {
    hide IsLife, Step, Sane;
    StepKeepsRuns(s, e);
    if OfRun(e, r) {
      OwnStep(s, e, r, tr);
    } else {
      OtherStep(s, e, r, tr);
      assert tr + [] == tr;
    }
  }

  lemma {:induction false} LifeStep(es: seq<Event>, r: nat, tr: seq<Event>)
    requires es != []
    ensures tr + Own(es[0], r) + Life(es[1..], r) == tr + Life(es, r)
  {
  }

  lemma {:induction false} ExecLife(s: State, es: seq<Event>, r: nat, tr: seq<Event>)
    requires r < |s.runs| && Exec(s, es).Some? && IsLife(s.runs[r], r, tr) && Sane(s.runs[r])
    ensures IsLife(PcOf(Exec(s, es).value, r), r, tr + Life(es, r))
    decreases |es|
  {
    hide IsLife, Step, Sane, Own;
    if es == [] {
      assert tr + [] == tr;
    } else {
      AnyStep(s, es[0], r, tr);
      ExecLife(Step(s, es[0]).value, es[1..], r, tr + Own(es[0], r));
      LifeStep(es, r, tr);
    }
  }

  lemma {:induction false} StepKeepsRuns(s: State, e: Event)
    requires Step(s, e).Some?
    ensures |Step(s, e).value.runs| == |s.runs|
  {
  }

  /** MAIN RESULT.  In every interleaving the events of a run are those of one life. */
  lemma {:induction false} EveryRunHasOneLife(runs: nat, reapers: nat, es: seq<Event>, r: nat)
    requires r < runs && Exec(Init(runs, reapers), es).Some?
    ensures IsLife(PcOf(Exec(Init(runs, reapers), es).value, r), r, Life(es, r))
  {
    ExecLife(Init(runs, reapers), es, r, []);
    assert [] + Life(es, r) == Life(es, r);
  }

  function Removals(tr: seq<Event>): nat { if tr == [] then 0 else (if tr[0].Remove? then 1 else 0) + Removals(tr[1..]) }

  /** MAIN RESULT.  A run that got its container and is through without a crash has tried to
      remove it exactly once; before its return it has not. */
  lemma {:induction false} OneRemovalPerRun(runs: nat, reapers: nat, es: seq<Event>, r: nat)
    requires r < runs && Exec(Init(runs, reapers), es).Some?
    ensures var pc := PcOf(Exec(Init(runs, reapers), es).value, r);
            && Removals(Life(es, r)) == (if pc.Cleaned? || (pc.Leaked? && pc.cause == FailedRemove) then 1 else 0)
            && (Reply(r) in Life(es, r) && !pc.Holding? && !pc.Removing? && !(pc.Leaked? && pc.cause == Crash)
                ==> Removals(Life(es, r)) == 1)
  {
    hide Exec;
    EveryRunHasOneLife(runs, reapers, es, r);
    CountRemovals(PcOf(Exec(Init(runs, reapers), es).value, r), r, Life(es, r));
  }

  lemma {:induction false} CountRemovals(pc: RunPc, r: nat, tr: seq<Event>)
    requires IsLife(pc, r, tr)
    ensures Removals(tr) == (if pc.Cleaned? || (pc.Leaked? && pc.cause == FailedRemove) then 1 else 0)
    ensures Reply(r) in tr && !pc.Holding? && !pc.Removing? && !(pc.Leaked? && pc.cause == Crash) ==> Removals(tr) == 1
  {
    if |tr| > 0 { Drop(tr); }
    if |tr| > 1 { Drop(tr[1..]); }
    if |tr| > 2 { Drop(tr[2..]); assert tr[1..][1..] == tr[2..]; }
    if |tr| > 3 { Drop(tr[3..]); assert tr[2..][1..] == tr[3..]; }
    if |tr| > 4 { Drop(tr[4..]); assert tr[3..][1..] == tr[4..] && tr[4..][1..] == []; }
  }

  lemma {:induction false} Drop(tr: seq<Event>)
    requires tr != []
    ensures Removals(tr) == (if tr[0].Remove? then 1 else 0) + Removals(tr[1..])
  {
  }
}
