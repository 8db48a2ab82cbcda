/** The admission protocol of the worker pool as a transition system.

    Every request runs the same little program against two shared variables that
    are updated separately: the occupancy of a buffered channel and an atomic
    32-bit counter.  One event is one atomic action of one request. */
module PoolModel {
  import opened Option
  import opened GoInt

  /** Where a request stands. */
  datatype Pc =
    | Start                    // has not tried for a slot yet
    | Missed                   // found every slot taken, has not counted itself yet
    | Queued                   // counted itself, blocked on a slot or on its context
    | Granted                  // got a slot while queued, still counted
    | Expired                  // its context ended while queued, still counted
    | Shedding                 // counted itself past the limit, still counted
    | Serving                  // holds a slot, the handler is running
    | Served(panicked: bool)   // the handler is over, the slot is given back
    | TooMany                  // answered 429
    | TimedOut                 // answered 408

  datatype Event =
    | TrySlot(id: nat)
    | Count(id: nat)
    | Grant(id: nat)
    | Expire(id: nat)
    | Uncount(id: nat)
    | Return(id: nat, panicked: bool)

  /** sem is the number of values buffered in the channel of capacity size. */
  datatype Pool = Pool(size: nat, maxWaiting: int32, sem: nat, waiting: int32, pcs: seq<Pc>)

  function Init(size: nat, maxWaiting: int, n: nat): Pool {
    Pool(size, ToInt32(maxWaiting), 0, 0, seq(n, _ => Start))
  }

  /** The effect of an event, or None when the request cannot take it now. */
  function Step(s: Pool, e: Event): Option<Pool> {
    if e.id >= |s.pcs| then None else
    var i := e.id;
    match (e, s.pcs[i])
    case (TrySlot(_), Start) =>
      if s.sem < s.size
      then Some(s.(sem := s.sem + 1, pcs := s.pcs[i := Serving]))
      else Some(s.(pcs := s.pcs[i := Missed]))
    case (Count(_), Missed) =>
      var w := ToInt32(s.waiting + 1);
      Some(s.(waiting := w, pcs := s.pcs[i := if w > s.maxWaiting then Shedding else Queued]))
    case (Grant(_), Queued) =>
      if s.sem < s.size then Some(s.(sem := s.sem + 1, pcs := s.pcs[i := Granted])) else None
    case (Expire(_), Queued) =>
      Some(s.(pcs := s.pcs[i := Expired]))
    case (Uncount(_), Shedding) =>
      Some(s.(waiting := ToInt32(s.waiting - 1), pcs := s.pcs[i := TooMany]))
    case (Uncount(_), Granted) =>
      Some(s.(waiting := ToInt32(s.waiting - 1), pcs := s.pcs[i := Serving]))
    case (Uncount(_), Expired) =>
      Some(s.(waiting := ToInt32(s.waiting - 1), pcs := s.pcs[i := TimedOut]))
    case (Return(_, panicked), Serving) =>
      if s.sem > 0 then Some(s.(sem := s.sem - 1, pcs := s.pcs[i := Served(panicked)])) else None
    case _ => None
  }

  /** The state after a schedule, or None when some event of it was not possible. */
  function Exec(s: Pool, es: seq<Event>): Option<Pool>
    decreases |es|
  {
    if es == [] then Some(s) else
    match Step(s, es[0])
    case None => None
    case Some(t) => Exec(t, es[1..])
  }

  lemma {:induction false} ExecAppend(s: Pool, es: seq<Event>, fs: seq<Event>)
    requires Exec(s, es).Some?
    ensures Exec(s, es + fs) == Exec(Exec(s, es).value, fs)
    decreases |es|
  {
    if es == [] {
      assert es + fs == fs;
    } else {
      assert (es + fs)[1..] == es[1..] + fs;
      ExecAppend(Step(s, es[0]).value, es[1..], fs);
    }
  }

  // ---------------------------------------------------------------- counting

  function Tally(pcs: seq<Pc>, pc: Pc): nat {
    if pcs == [] then 0 else (if pcs[0] == pc then 1 else 0) + Tally(pcs[1..], pc)
  }

  function Num(s: Pool, pc: Pc): nat { Tally(s.pcs, pc) }

  /** Requests that hold a slot of the channel. */
  function Holders(s: Pool): nat { Num(s, Serving) + Num(s, Granted) }

  /** Requests between their Add(1) and their Add(-1). */
  function InWindow(s: Pool): nat { Num(s, Queued) + Transient(s) }

  /** Requests still counted although they do not wait in the queue any more, or never did. */
  function Transient(s: Pool): nat { Num(s, Granted) + Num(s, Expired) + Num(s, Shedding) }

  /** Requests that passed the limit check and are still counted. */
  function Admitted(s: Pool): nat { Num(s, Queued) + Num(s, Granted) + Num(s, Expired) }

  function Answered(s: Pool): nat {
    Num(s, Served(false)) + Num(s, Served(true)) + Num(s, TooMany) + Num(s, TimedOut)
  }

  /** The queue length the pool really enforces. */
  function Cap(s: Pool): nat { if s.maxWaiting > 0 then s.maxWaiting else 0 }

  /** Moving one request from one place to another moves one unit between two counts. */
  lemma {:induction false} CountMove(pcs: seq<Pc>, i: nat, x: Pc, pc: Pc)
    requires i < |pcs|
    ensures Tally(pcs[i := x], pc) == Tally(pcs, pc) - (if pc == pcs[i] then 1 else 0) + (if pc == x then 1 else 0)
  {
    if i == 0 {
      assert pcs[0 := x][1..] == pcs[1..];
    } else {
      assert pcs[i := x][1..] == pcs[1..][i - 1 := x];
      CountMove(pcs[1..], i - 1, x, pc);
    }
  }

  lemma {:induction false} CountPositive(pcs: seq<Pc>, pc: Pc)
    ensures Tally(pcs, pc) > 0 <==> pc in pcs
  {
    if pcs != [] { CountPositive(pcs[1..], pc); }
  }

  lemma {:induction false} CountAll(pcs: seq<Pc>)
    ensures |pcs| ==
            Tally(pcs, Start) + Tally(pcs, Missed) + Tally(pcs, Queued) + Tally(pcs, Granted)
            + Tally(pcs, Expired) + Tally(pcs, Shedding) + Tally(pcs, Serving)
            + Tally(pcs, Served(false)) + Tally(pcs, Served(true)) + Tally(pcs, TooMany) + Tally(pcs, TimedOut)
  {
    if pcs != [] {
      CountAll(pcs[1..]);
      match pcs[0] { case Served(panicked) => assert panicked || !panicked; case _ => }
    }
  }

  lemma {:induction false} CountInit(size: nat, maxWaiting: int, n: nat, pc: Pc)
    requires pc != Start
    ensures Num(Init(size, maxWaiting, n), pc) == 0
  {
    CountPositive(Init(size, maxWaiting, n).pcs, pc);
  }

  /** Nothing is in use and nobody is counted at first. */
  lemma {:induction false} InitCounts(size: nat, maxWaiting: int, n: nat)
    ensures var s := Init(size, maxWaiting, n);
            Holders(s) == InWindow(s) == Admitted(s) == Answered(s) == Num(s, Missed) == 0
  {
    forall pc | pc != Start ensures Num(Init(size, maxWaiting, n), pc) == 0 { CountInit(size, maxWaiting, n, pc); }
  }

  // -------------------------------------------------- what every state satisfies

  ghost predicate Inv(s: Pool) {
    && s.sem == Holders(s) <= s.size
    && s.waiting == ToInt32(InWindow(s))
  }

  function HoldsSlot(pc: Pc): nat { if pc == Serving || pc == Granted then 1 else 0 }

  function Counted(pc: Pc): nat { if pc == Queued || pc == Granted || pc == Expired || pc == Shedding then 1 else 0 }

  /** Every event moves exactly one request, and moves the two shared variables by what
      that request gives up or takes. */
  lemma {:induction false} StepEffect(s: Pool, e: Event)
    requires Step(s, e).Some?
    ensures e.id < |s.pcs|
    ensures var t := Step(s, e).value; var pc := s.pcs[e.id];
            && |t.pcs| == |s.pcs|
            && t == s.(sem := t.sem, waiting := t.waiting, pcs := s.pcs[e.id := t.pcs[e.id]])
            && t.sem == s.sem + HoldsSlot(t.pcs[e.id]) - HoldsSlot(pc)
            && t.waiting == ToInt32(s.waiting + Counted(t.pcs[e.id]) - Counted(pc))
            && (t.sem > s.sem ==> s.sem < s.size)
  {
  }

  lemma {:induction false} WrapAgain(x: int, d: int)
    ensures ToInt32(ToInt32(x) + d) == ToInt32(x + d)
  {
    assert (ToInt32(x) + d - (x + d)) % TWO_32 == 0;
  }

  /** What one move does to the two counts that matter. */
  lemma {:induction false} CountsMove(s: Pool, t: Pool, i: nat)
    requires i < |s.pcs| == |t.pcs| && t.pcs == s.pcs[i := t.pcs[i]]
    ensures Holders(t) == Holders(s) + HoldsSlot(t.pcs[i]) - HoldsSlot(s.pcs[i])
    ensures InWindow(t) == InWindow(s) + Counted(t.pcs[i]) - Counted(s.pcs[i])
    ensures forall pc {:trigger Num(t, pc)} {:trigger Num(s, pc)} ::
      Num(t, pc) == Num(s, pc) - (if pc == s.pcs[i] then 1 else 0) + (if pc == t.pcs[i] then 1 else 0)
  {
    forall pc
      ensures Num(t, pc) == Num(s, pc) - (if pc == s.pcs[i] then 1 else 0) + (if pc == t.pcs[i] then 1 else 0)
    {
      CountMove(s.pcs, i, t.pcs[i], pc);
    }
  }

  lemma {:induction false} StepKeepsInv(s: Pool, e: Event)
    requires Inv(s) && Step(s, e).Some?
    ensures Inv(Step(s, e).value)
  {
    StepEffect(s, e);
    var t := Step(s, e).value;
    CountsMove(s, t, e.id);
    WrapAgain(InWindow(s), Counted(t.pcs[e.id]) - Counted(s.pcs[e.id]));
  }
}
