/** What holds in every reachable state of the worker pool, under every schedule,
    with handlers that return or panic and requests that give up. */
module PoolSafety {
  import opened Option
  import opened GoInt
  import opened PoolModel

  /** In every state of the schedule fewer than 2^31 requests are counted at once. */
  ghost predicate Fits(s: Pool, es: seq<Event>)
    requires Exec(s, es).Some?
    decreases |es|
  {
    InWindow(s) <= MAX_INT32 && (es != [] ==> Fits(Step(s, es[0]).value, es[1..]))
  }

  /** The shape that no event changes. */
  ghost predicate SamePool(s: Pool, t: Pool) {
    t.size == s.size && t.maxWaiting == s.maxWaiting && |t.pcs| == |s.pcs|
  }

  function PcOf(s: Pool, i: nat): Pc { if i < |s.pcs| then s.pcs[i] else Start }

  lemma {:induction false} ExecKeepsInv(s: Pool, es: seq<Event>)
    requires Inv(s) && Exec(s, es).Some?
    ensures Inv(Exec(s, es).value) && SamePool(s, Exec(s, es).value)
    decreases |es|
  {
    if es != [] {
      StepKeepsInv(s, es[0]);
      StepEffect(s, es[0]);
      ExecKeepsInv(Step(s, es[0]).value, es[1..]);
    }
  }

  lemma {:induction false} InitInv(size: nat, maxWaiting: int, n: nat)
    ensures Inv(Init(size, maxWaiting, n))
  {
    InitCounts(size, maxWaiting, n);
  }

  /** Below 2^31 the stored counter is the number of counted requests. */
  lemma {:induction false} WindowIsWaiting(s: Pool)
    requires Inv(s) && InWindow(s) <= MAX_INT32
    ensures s.waiting == InWindow(s)
  {
  }

  /** The limit check looks at everyone still counted, not at the queue. */
  lemma {:induction false} CountDecides(s: Pool, i: nat)
    requires Inv(s) && InWindow(s) < MAX_INT32
    requires i < |s.pcs| && s.pcs[i] == Missed
    ensures Step(s, Count(i)).Some?
    ensures PcOf(Step(s, Count(i)).value, i) == if InWindow(s) >= Cap(s) then Shedding else Queued
  {
    WindowIsWaiting(s);
  }

  lemma {:induction false} StepKeepsAdmitted(s: Pool, e: Event)
    requires Inv(s) && Admitted(s) <= Cap(s) && Step(s, e).Some?
    requires InWindow(s) <= MAX_INT32 && InWindow(Step(s, e).value) <= MAX_INT32
    ensures Admitted(Step(s, e).value) <= Cap(s)
  {
    StepEffect(s, e);
    var t := Step(s, e).value;
    CountsMove(s, t, e.id);
    if s.pcs[e.id] == Missed { CountDecides(s, e.id); }
  }

  lemma {:induction false} ExecKeepsAdmitted(s: Pool, es: seq<Event>)
    requires Inv(s) && Admitted(s) <= Cap(s) && Exec(s, es).Some? && Fits(s, es)
    ensures Admitted(Exec(s, es).value) <= Cap(s)
    ensures InWindow(Exec(s, es).value) <= MAX_INT32
    decreases |es|
  {
    if es != [] {
      var t := Step(s, es[0]).value;
      StepKeepsAdmitted(s, es[0]);
      StepKeepsInv(s, es[0]);
      StepEffect(s, es[0]);
      ExecKeepsAdmitted(t, es[1..]);
    }
  }

  /** MAIN RESULT.  Whatever the schedule, the channel never holds more than its size and
      holds exactly the slots in use, the counter is the number of requests between their
      two additions, and no more than the limit ever got past the check. */
  lemma {:induction false} PoolInvariant(size: nat, maxWaiting: int, n: nat, es: seq<Event>)
    requires Exec(Init(size, maxWaiting, n), es).Some?
    ensures var s := Exec(Init(size, maxWaiting, n), es).value;
            && s.sem == Holders(s) <= size
            && s.waiting == ToInt32(InWindow(s))
            && (Fits(Init(size, maxWaiting, n), es) ==> s.waiting == InWindow(s) && Admitted(s) <= Cap(s))
  {
    var s0 := Init(size, maxWaiting, n);
    InitInv(size, maxWaiting, n);
    InitCounts(size, maxWaiting, n);
    ExecKeepsInv(s0, es);
    if Fits(s0, es) {
      ExecKeepsAdmitted(s0, es);
      WindowIsWaiting(Exec(s0, es).value);
    }
  }

  /** The counter cannot overflow while fewer than 2^31 requests exist at all. */
  lemma {:induction false} FewRequestsFit(s: Pool, es: seq<Event>)
    requires |s.pcs| <= MAX_INT32 && Exec(s, es).Some?
    ensures Fits(s, es)
    decreases |es|
  {
    CountAll(s.pcs);
    if es != [] {
      StepEffect(s, es[0]);
      FewRequestsFit(Step(s, es[0]).value, es[1..]);
    }
  }

  // ------------------------------------------------------ what a 429 tells

  /** A request is turned away with room in the queue exactly when requests that are no
      longer queued, and only those, make up the difference. */
  lemma {:induction false} UnfairRejection(s: Pool, i: nat)
    requires Inv(s) && InWindow(s) < MAX_INT32
    requires i < |s.pcs| && s.pcs[i] == Missed
    ensures Step(s, Count(i)).Some?
    ensures (PcOf(Step(s, Count(i)).value, i) == Shedding && Num(s, Queued) < Cap(s))
            <==> Num(s, Queued) < Cap(s) <= Num(s, Queued) + Transient(s)
  {
    CountDecides(s, i);
  }

  /** A schedule of three requests on a pool of one slot and one waiting place ... */
  function UnfairSchedule(): seq<Event> {
    [TrySlot(0), TrySlot(1), Count(1), Return(0, false), Grant(1), TrySlot(2), Count(2)]
  }

  /** ... and where the requests stand before each event and at the end. */
  function UnfairStates(): seq<Pool> {
    [Pool(1, 1, 0, 0, [Start, Start, Start]),
     Pool(1, 1, 1, 0, [Serving, Start, Start]),
     Pool(1, 1, 1, 0, [Serving, Missed, Start]),
     Pool(1, 1, 1, 1, [Serving, Queued, Start]),
     Pool(1, 1, 0, 1, [Served(false), Queued, Start]),
     Pool(1, 1, 1, 1, [Served(false), Granted, Start]),
     Pool(1, 1, 1, 1, [Served(false), Granted, Missed]),
     Pool(1, 1, 1, 2, [Served(false), Granted, Shedding])]
  }

  lemma {:induction false} UnfairStep(k: nat)
    requires k < 7
    ensures Step(UnfairStates()[k], UnfairSchedule()[k]) == Some(UnfairStates()[k + 1])
  {
    var s, e, t := UnfairStates()[k], UnfairSchedule()[k], UnfairStates()[k + 1];
    assert s.pcs[e.id := t.pcs[e.id]] == t.pcs;
  }

  lemma {:induction false} UnfairRun(k: nat)
    requires k <= 7
    ensures Exec(UnfairStates()[k], UnfairSchedule()[k..]) == Some(UnfairStates()[7])
    decreases 7 - k
  {
    if k < 7 {
      UnfairStep(k);
      UnfairRun(k + 1);
      assert UnfairSchedule()[k..][1..] == UnfairSchedule()[k + 1..];
    }
  }

  /** "429 only when the queue is full" is false: the last request here is shed although
      nobody is queued. */
  lemma {:induction false} RejectedWithEmptyQueue()
    ensures exists es :: Exec(Init(1, 1, 3), es) == Some(Pool(1, 1, 1, 2, [Served(false), Granted, Shedding]))
    ensures Num(Pool(1, 1, 1, 2, [Served(false), Granted, Shedding]), Queued) == 0
  {
    assert Init(1, 1, 3).pcs == [Start, Start, Start];
    UnfairRun(0);
    assert UnfairSchedule()[0..] == UnfairSchedule();
    CountPositive([Served(false), Granted, Shedding], Queued);
  }

  /** A list of states linked by single steps is an execution. */
  lemma {:induction false} Chain(s: Pool, es: seq<Event>, states: seq<Pool>)
    requires |states| == |es| + 1 && states[0] == s
    requires forall k :: 0 <= k < |es| ==> Step(states[k], es[k]) == Some(states[k + 1])
    ensures Exec(s, es) == Some(states[|es|])
    decreases |es|
  {
    if es != [] { Chain(states[1], es[1..], states[1..]); }
  }

  /** The state before the k-th event. */
  function At(s: Pool, es: seq<Event>, k: nat): Pool
    requires k <= |es|
  {
    match Exec(s, es[..k])
    case Some(t) => t
    case None => s
  }

  lemma {:induction false} LastEvent(s: Pool, es: seq<Event>)
    requires es != [] && Exec(s, es).Some?
    ensures var k := |es| - 1;
            Exec(s, es[..k]).Some? && Step(At(s, es, k), es[k]) == Exec(s, es)
  {
    hide Step, At;
    var k := |es| - 1;
    Prefix(s, es, k);
    assert es == es[..k] + [es[k]];
    ExecAppend(s, es[..k], [es[k]]);
    var m := Exec(s, es[..k]).value;
    AtIsExec(s, es, k);
    OneEvent(m, es[k]);
  }

  lemma {:induction false} AtIsExec(s: Pool, es: seq<Event>, k: nat)
    requires k <= |es| && Exec(s, es[..k]).Some?
    ensures At(s, es, k) == Exec(s, es[..k]).value
  {
  }

  lemma {:induction false} OneEvent(s: Pool, e: Event)
    ensures Exec(s, [e]) == Step(s, e)
  {
    hide Step;
    assert [e][1..] == [];
  }

  lemma {:induction false} Prefix(s: Pool, es: seq<Event>, k: nat)
    requires k <= |es| && Exec(s, es).Some?
    ensures Exec(s, es[..k]).Some?
    decreases k
  {
    hide Step;
    if k > 0 {
      assert es[..k][1..] == es[1..][..k - 1];
      Prefix(Step(s, es[0]).value, es[1..], k - 1);
    }
  }

  /** Every state along a schedule that fits is below the bound. */
  lemma {:induction false} FitsPrefix(s: Pool, es: seq<Event>, k: nat)
    requires k <= |es| && Exec(s, es).Some? && Fits(s, es)
    ensures Exec(s, es[..k]).Some? && Fits(s, es[..k])
    ensures InWindow(At(s, es, k)) <= MAX_INT32 && InWindow(Exec(s, es).value) <= MAX_INT32
    decreases |es|
  {
    if es != [] {
      var t := Step(s, es[0]).value;
      if k > 0 {
        assert es[..k][1..] == es[1..][..k - 1];
        FitsPrefix(t, es[1..], k - 1);
      } else {
        FitsPrefix(t, es[1..], 0);
      }
    }
  }

  /** The j-th event is i's failed try for a slot, made while every slot was taken. */
  ghost predicate SlotRefused(s0: Pool, es: seq<Event>, i: nat, j: nat) {
    j < |es| && es[j] == TrySlot(i) && At(s0, es, j).sem == s0.size
  }

  /** The k-th event is i's count, made while at least the limit of others was counted. */
  ghost predicate CountRefused(s0: Pool, es: seq<Event>, i: nat, k: nat) {
    k < |es| && es[k] == Count(i)
    && PcOf(At(s0, es, k), i) == Missed && InWindow(At(s0, es, k)) >= Cap(s0)
  }

  lemma {:induction false} SamePrefix(s0: Pool, es: seq<Event>, m: nat, j: nat)
    requires j < m <= |es|
    ensures es[..m][j] == es[j] && At(s0, es[..m], j) == At(s0, es, j)
  {
    assert es[..m][..j] == es[..j];
  }

  /** A request enters Missed only by a refused try. */
  lemma {:induction false} WhoMisses(s: Pool, e: Event, i: nat)
    requires Step(s, e).Some? && s.sem <= s.size
    requires PcOf(s, i) != Missed && PcOf(Step(s, e).value, i) == Missed
    ensures e == TrySlot(i) && s.sem == s.size
  {
  }

  /** A request starts shedding only by a count. */
  lemma {:induction false} WhoSheds(s: Pool, e: Event, i: nat)
    requires Step(s, e).Some?
    requires PcOf(s, i) !in {Shedding, TooMany} && PcOf(Step(s, e).value, i) in {Shedding, TooMany}
    ensures e == Count(i) && PcOf(s, i) == Missed && PcOf(Step(s, e).value, i) == Shedding
  {
  }

  /** Whoever missed its slot did so at a moment when all slots were taken. */
  lemma {:induction false} MissedBecauseFull(s0: Pool, es: seq<Event>, i: nat)
    requires Inv(s0) && PcOf(s0, i) == Start && Exec(s0, es).Some?
    requires PcOf(Exec(s0, es).value, i) == Missed
    ensures exists j :: SlotRefused(s0, es, i, j)
    decreases |es|
  {
    var m := |es| - 1;
    LastEvent(s0, es);
    var s := At(s0, es, m);
    ExecKeepsInv(s0, es[..m]);
    if PcOf(s, i) == Missed {
      MissedBecauseFull(s0, es[..m], i);
      var j :| SlotRefused(s0, es[..m], i, j);
      SamePrefix(s0, es, m, j);
      assert SlotRefused(s0, es, i, j);
    } else {
      WhoMisses(s, es[m], i);
      assert SlotRefused(s0, es, i, m);
    }
  }

  /** The moment of the count. */
  lemma {:induction false} RejectedNow(s0: Pool, es: seq<Event>, m: nat, i: nat)
    requires Inv(s0) && m < |es| && Exec(s0, es[..m]).Some? && es[m] == Count(i)
    requires PcOf(At(s0, es, m), i) == Missed && Step(At(s0, es, m), Count(i)).Some?
    requires PcOf(Step(At(s0, es, m), Count(i)).value, i) == Shedding
    requires InWindow(Step(At(s0, es, m), Count(i)).value) <= MAX_INT32
    ensures CountRefused(s0, es, i, m)
  {
    var s := At(s0, es, m);
    ExecKeepsInv(s0, es[..m]);
    CountsMove(s, Step(s, Count(i)).value, i);
    CountDecides(s, i);
  }

  /** MAIN RESULT.  Behind every 429 there are two moments: one when every slot was taken,
      and a later one when at least the limit of other requests was counted. */
  lemma {:induction false} RejectedBecauseCrowded(s0: Pool, es: seq<Event>, i: nat)
    requires Inv(s0) && PcOf(s0, i) == Start && Exec(s0, es).Some? && Fits(s0, es)
    requires PcOf(Exec(s0, es).value, i) in {Shedding, TooMany}
    ensures exists j, k :: j < k && SlotRefused(s0, es, i, j) && CountRefused(s0, es, i, k)
    decreases |es|
  {
    var m := |es| - 1;
    LastEvent(s0, es);
    FitsPrefix(s0, es, m);
    if PcOf(At(s0, es, m), i) in {Shedding, TooMany} {
      RejectedBecauseCrowded(s0, es[..m], i);
      var j, k :| j < k && SlotRefused(s0, es[..m], i, j) && CountRefused(s0, es[..m], i, k);
      SamePrefix(s0, es, m, j);
      SamePrefix(s0, es, m, k);
      assert SlotRefused(s0, es, i, j) && CountRefused(s0, es, i, k);
    } else {
      WhoSheds(At(s0, es, m), es[m], i);
      MissedBecauseFull(s0, es[..m], i);
      var j :| SlotRefused(s0, es[..m], i, j);
      SamePrefix(s0, es, m, j);
      RejectedNow(s0, es, m, i);
      assert SlotRefused(s0, es, i, j) && CountRefused(s0, es, i, m);
    }
  }

  // ------------------------------------------------------ the configured limit

  /** The limit is stored in 32 bits, so the queue is as long as configured exactly when
      the configured length fits. */
  lemma {:induction false} QueueAsConfigured(size: nat, maxWaiting: nat, n: nat)
    ensures Cap(Init(size, maxWaiting, n)) == maxWaiting <==> maxWaiting <= MAX_INT32
  {
  }

  /** A configured length of 2^31 gives no queue at all. */
  lemma {:induction false} HugeQueueIsNoQueue(size: nat, n: nat)
    ensures Cap(Init(size, TWO_31, n)) == 0
  {
  }
}
