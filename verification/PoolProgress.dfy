/** Every schedule of the worker pool ends, ends with everyone answered, and takes every
    request along one of the paths of its handler. */
module PoolProgress {
  import opened Option
  import opened PoolModel
  import opened PoolSafety

  // -------------------------------------------------------------- termination

  /** Events a request may still take. */
  function StepsLeft(pc: Pc): nat {
    match pc
    case Start => 5
    case Missed => 4
    case Queued => 3
    case Granted => 2
    case Expired => 1
    case Shedding => 1
    case Serving => 1
    case _ => 0
  }

  function Measure(pcs: seq<Pc>): nat {
    if pcs == [] then 0 else StepsLeft(pcs[0]) + Measure(pcs[1..])
  }

  lemma {:induction false} MeasureMove(pcs: seq<Pc>, i: nat, x: Pc)
    requires i < |pcs|
    ensures Measure(pcs[i := x]) == Measure(pcs) - StepsLeft(pcs[i]) + StepsLeft(x)
  {
    if i == 0 {
      assert pcs[0 := x][1..] == pcs[1..];
    } else {
      assert pcs[i := x][1..] == pcs[1..][i - 1 := x];
      MeasureMove(pcs[1..], i - 1, x);
    }
  }

  lemma {:induction false} StepDropsMeasure(s: Pool, e: Event)
    requires Step(s, e).Some?
    ensures Measure(Step(s, e).value.pcs) < Measure(s.pcs)
  {
    StepEffect(s, e);
    MeasureMove(s.pcs, e.id, Step(s, e).value.pcs[e.id]);
    StepsLeftDrops(s, e);
  }

  lemma {:induction false} StepsLeftDrops(s: Pool, e: Event)
    requires Step(s, e).Some?
    ensures StepsLeft(PcOf(Step(s, e).value, e.id)) < StepsLeft(PcOf(s, e.id))
  {
  }

  lemma {:induction false} ExecDropsMeasure(s: Pool, es: seq<Event>)
    requires Exec(s, es).Some?
    ensures |es| + Measure(Exec(s, es).value.pcs) <= Measure(s.pcs)
    decreases |es|
  {
    if es != [] {
      StepDropsMeasure(s, es[0]);
      ExecDropsMeasure(Step(s, es[0]).value, es[1..]);
    }
  }

  lemma {:induction false} MeasureInit(pcs: seq<Pc>)
    requires forall k :: 0 <= k < |pcs| ==> pcs[k] == Start
    ensures Measure(pcs) == 5 * |pcs|
  {
    if pcs != [] { MeasureInit(pcs[1..]); }
  }

  /** MAIN RESULT.  No schedule of n requests is longer than 5n events. */
  lemma {:induction false} EveryScheduleEnds(size: nat, maxWaiting: int, n: nat, es: seq<Event>)
    requires Exec(Init(size, maxWaiting, n), es).Some?
    ensures |es| <= 5 * n
  {
    ExecDropsMeasure(Init(size, maxWaiting, n), es);
    MeasureInit(Init(size, maxWaiting, n).pcs);
  }

  // ----------------------------------------------------------------- progress

  predicate IsAnswer(pc: Pc) { pc.Served? || pc == TooMany || pc == TimedOut }

  predicate AllAnswered(s: Pool) { forall pc :: pc in s.pcs ==> IsAnswer(pc) }

  /** Nobody has to wait for a client to give up: with one slot or more, as long as someone
      is unanswered some event other than a timeout is possible. */
  lemma {:induction false} NeverStuck(s: Pool)
    requires Inv(s) && s.size >= 1 && !AllAnswered(s)
    ensures exists e: Event :: !e.Expire? && Step(s, e).Some?
  {
    var i :| 0 <= i < |s.pcs| && !IsAnswer(s.pcs[i]);
    match s.pcs[i]
    case Start => assert Step(s, TrySlot(i)).Some?;
    case Missed => assert Step(s, Count(i)).Some?;
    case Granted => assert Step(s, Uncount(i)).Some?;
    case Expired => assert Step(s, Uncount(i)).Some?;
    case Shedding => assert Step(s, Uncount(i)).Some?;
    case Serving => ReturnPossible(s, i); assert Step(s, Return(i, false)).Some?;
    case Queued =>
      if s.sem < s.size {
        assert Step(s, Grant(i)).Some?;
      } else {
        CountPositive(s.pcs, Serving);
        CountPositive(s.pcs, Granted);
        var j :| 0 <= j < |s.pcs| && (s.pcs[j] == Serving || s.pcs[j] == Granted);
        if s.pcs[j] == Serving { ReturnPossible(s, j); assert Step(s, Return(j, false)).Some?; } else { assert Step(s, Uncount(j)).Some?; }
      }
  }

  /** Giving the slot back never blocks: the channel holds at least the value put there. */
  lemma {:induction false} ReturnPossible(s: Pool, i: nat)
    requires Inv(s) && PcOf(s, i) == Serving
    ensures forall panicked :: Step(s, Return(i, panicked)).Some?
  {
    CountPositive(s.pcs, Serving);
  }

  /** With no slot at all a queued request waits for its own timeout: size >= 1 is needed. */
  lemma {:induction false} StuckWithoutSlots()
    ensures exists es, s ::
      && Exec(Init(0, 1, 1), es) == Some(s) && !AllAnswered(s)
      && (forall e: Event :: Step(s, e).Some? ==> e.Expire?)
  {
    var s0 := Init(0, 1, 1);
    var s1 := Pool(0, 1, 0, 0, [Missed]);
    var s2 := Pool(0, 1, 0, 1, [Queued]);
    assert Step(s0, TrySlot(0)) == Some(s1) by { assert s0.pcs[0 := Missed] == s1.pcs; }
    assert Step(s1, Count(0)) == Some(s2) by { assert s1.pcs[0 := Queued] == s2.pcs; }
    Chain(s0, [TrySlot(0), Count(0)], [s0, s1, s2]);
    assert s2.pcs[0] in s2.pcs;
  }

  lemma {:induction false} NobodyLeft(s: Pool)
    requires Inv(s) && AllAnswered(s)
    ensures s.sem == 0 && s.waiting == 0 && Answered(s) == |s.pcs|
  {
    forall pc | !IsAnswer(pc) ensures Num(s, pc) == 0 { CountPositive(s.pcs, pc); }
    CountAll(s.pcs);
    assert Num(s, Start) == Num(s, Missed) == Num(s, Queued) == Num(s, Granted) == Num(s, Expired)
      == Num(s, Shedding) == Num(s, Serving) == 0;
  }

  /** MAIN RESULT.  A schedule that can only go on by timeouts is over: everyone has exactly
      one answer, every slot is back and nobody is counted. */
  lemma {:induction false} EveryoneIsAnswered(size: nat, maxWaiting: int, n: nat, es: seq<Event>)
    requires size >= 1 && Exec(Init(size, maxWaiting, n), es).Some?
    requires forall e: Event :: Step(Exec(Init(size, maxWaiting, n), es).value, e).Some? ==> e.Expire?
    ensures var s := Exec(Init(size, maxWaiting, n), es).value;
            AllAnswered(s) && s.sem == 0 && s.waiting == 0 && Answered(s) == n
  {
    var s := Exec(Init(size, maxWaiting, n), es).value;
    InitInv(size, maxWaiting, n);
    ExecKeepsInv(Init(size, maxWaiting, n), es);
    if !AllAnswered(s) { NeverStuck(s); }
    NobodyLeft(s);
  }

  // -------------------------------------------------------- one request's path

  /** The events of one request, in order. */
  function Projection(es: seq<Event>, i: nat): seq<Event> {
    if es == [] then []
    else Own(es[0], i) + Projection(es[1..], i)
  }

  function Own(e: Event, i: nat): seq<Event> { if e.id == i then [e] else [] }

  /** tr is a path of the handler's code that leads to pc. */
  predicate IsPath(pc: Pc, i: nat, tr: seq<Event>) {
    match pc
    case Start => tr == []
    case Missed => tr == [TrySlot(i)]
    case Queued => tr == [TrySlot(i), Count(i)]
    case Shedding => tr == [TrySlot(i), Count(i)]
    case Granted => tr == [TrySlot(i), Count(i), Grant(i)]
    case Expired => tr == [TrySlot(i), Count(i), Expire(i)]
    case Serving => tr == [TrySlot(i)] || tr == [TrySlot(i), Count(i), Grant(i), Uncount(i)]
    case Served(panicked) =>
      tr == [TrySlot(i), Return(i, panicked)]
      || tr == [TrySlot(i), Count(i), Grant(i), Uncount(i), Return(i, panicked)]
    case TooMany => tr == [TrySlot(i), Count(i), Uncount(i)]
    case TimedOut => tr == [TrySlot(i), Count(i), Expire(i), Uncount(i)]
  }

  lemma {:induction false} StepExtendsPath(s: Pool, e: Event, i: nat, tr: seq<Event>)
    requires Step(s, e).Some? && IsPath(PcOf(s, i), i, tr)
    ensures IsPath(PcOf(Step(s, e).value, i), i, tr + Own(e, i))
  {
    if e.id != i { assert tr + [] == tr; }
  }

  lemma {:induction false} ProjectionStep(es: seq<Event>, i: nat, tr: seq<Event>)
    requires es != []
    ensures tr + Own(es[0], i) + Projection(es[1..], i) == tr + Projection(es, i)
  {
  }

  lemma {:induction false} ExecExtendsPath(s: Pool, es: seq<Event>, i: nat, tr: seq<Event>)
    requires Exec(s, es).Some? && IsPath(PcOf(s, i), i, tr)
    ensures IsPath(PcOf(Exec(s, es).value, i), i, tr + Projection(es, i))
    decreases |es|
  {
    hide IsPath, Step, PcOf, Own;
    if es == [] {
      assert tr + [] == tr;
    } else {
      StepExtendsPath(s, es[0], i, tr);
      ExecExtendsPath(Step(s, es[0]).value, es[1..], i, tr + Own(es[0], i));
      ProjectionStep(es, i, tr);
    }
  }

  /** MAIN RESULT.  In every schedule every request has taken one path of the handler: served
      means exactly one Return, 429 and 408 mean none, and every Count but the pending one
      is matched by one Uncount. */
  lemma {:induction false} EachRequestTakesOnePath(size: nat, maxWaiting: int, n: nat, es: seq<Event>, i: nat)
    requires i < n && Exec(Init(size, maxWaiting, n), es).Some?
    ensures IsPath(PcOf(Exec(Init(size, maxWaiting, n), es).value, i), i, Projection(es, i))
  {
    ExecExtendsPath(Init(size, maxWaiting, n), es, i, []);
    assert [] + Projection(es, i) == Projection(es, i);
  }
}
