/** A burst: requests arrive in any interleaving, no handler finishes and nobody gives up.
    Then admission is exact, although the counter runs ahead of the queue. */
module PoolBurst {
  import opened Option
  import opened GoInt
  import opened PoolModel
  import opened PoolSafety

  predicate IsBurst(es: seq<Event>) {
    forall e :: e in es ==> !e.Return? && !e.Expire?
  }

  /** Everyone who came has been parked or answered. */
  predicate Parked(s: Pool) {
    forall pc :: pc in s.pcs ==> pc in {Serving, Queued, TooMany}
  }

  /** The key: as soon as one request has been turned away, the queue is full and stays full. */
  ghost predicate BurstInv(s: Pool) {
    && (forall pc :: pc in s.pcs ==> pc in {Start, Missed, Queued, Shedding, Serving, TooMany})
    && Admitted(s) <= Cap(s)
    && (Num(s, Start) + Num(s, Serving) < |s.pcs| ==> s.sem == s.size)
    && (Shedding in s.pcs || TooMany in s.pcs ==> Num(s, Queued) == Cap(s))
  }

  lemma {:induction false} NoneOf(s: Pool, pc: Pc)
    requires pc !in s.pcs
    ensures Num(s, pc) == 0
  {
    CountPositive(s.pcs, pc);
  }

  lemma {:induction false} BurstCounts(s: Pool)
    requires BurstInv(s)
    ensures |s.pcs| == Num(s, Start) + Num(s, Missed) + Num(s, Queued) + Num(s, Shedding) + Num(s, Serving) + Num(s, TooMany)
    ensures Holders(s) == Num(s, Serving) && Admitted(s) == Num(s, Queued)
    ensures InWindow(s) == Num(s, Queued) + Num(s, Shedding)
  {
    CountAll(s.pcs);
    NoneOf(s, Granted); NoneOf(s, Expired); NoneOf(s, TimedOut); NoneOf(s, Served(true)); NoneOf(s, Served(false));
  }

  /** Nobody is granted a slot in a burst: whoever queues found all slots taken. */
  lemma {:induction false} NoGrant(s: Pool, e: Event)
    requires BurstInv(s) && Step(s, e).Some? && !e.Return? && !e.Expire?
    ensures (s.pcs[e.id], PcOf(Step(s, e).value, e.id)) in
      {(Start, Serving), (Start, Missed), (Missed, Queued), (Missed, Shedding), (Shedding, TooMany)}
    ensures s.pcs[e.id] == Start && PcOf(Step(s, e).value, e.id) == Missed ==> s.sem >= s.size
  {
    assert s.pcs[e.id] in s.pcs;
    if s.pcs[e.id] == Queued {
      BurstCounts(s);
      CountPositive(s.pcs, Queued);
    }
  }

  lemma {:induction false} BurstKeepsPcs(s: Pool, t: Pool, i: nat)
    requires BurstInv(s) && i < |s.pcs| == |t.pcs| && t.pcs == s.pcs[i := t.pcs[i]]
    requires t.pcs[i] in {Missed, Queued, Shedding, Serving, TooMany}
    ensures forall pc :: pc in t.pcs ==> pc in {Start, Missed, Queued, Shedding, Serving, TooMany}
  {
    forall k | 0 <= k < |t.pcs|
      ensures t.pcs[k] in {Start, Missed, Queued, Shedding, Serving, TooMany}
    {
      assert s.pcs[k] in s.pcs;
    }
  }

  /** Once full, the queue stays full: the only event that shortens it is a grant. */
  lemma {:induction false} FullStaysFull(s: Pool, t: Pool, i: nat)
    requires Inv(s) && BurstInv(s)
    requires i < |s.pcs| == |t.pcs| && t.pcs == s.pcs[i := t.pcs[i]]
    requires (s.pcs[i], t.pcs[i]) in
      {(Start, Serving), (Start, Missed), (Missed, Queued), (Missed, Shedding), (Shedding, TooMany)}
    requires Admitted(t) <= Cap(s)
    requires t.pcs[i] == Shedding ==> InWindow(s) >= Cap(s)
    ensures Shedding in t.pcs || TooMany in t.pcs ==> Num(t, Queued) == Cap(s)
  {
    CountsMove(s, t, i);
    BurstCounts(s);
    if Shedding !in s.pcs && TooMany !in s.pcs {
      NoneOf(s, Shedding);
      NoneOf(s, TooMany);
    }
  }

  lemma {:induction false} BurstStep(s: Pool, e: Event)
    requires Inv(s) && BurstInv(s) && Step(s, e).Some? && !e.Return? && !e.Expire?
    requires InWindow(s) <= MAX_INT32 && InWindow(Step(s, e).value) <= MAX_INT32
    ensures BurstInv(Step(s, e).value)
  {
    var t := Step(s, e).value;
    StepEffect(s, e);
    NoGrant(s, e);
    StepKeepsAdmitted(s, e);
    StepKeepsInv(s, e);
    BurstKeepsPcs(s, t, e.id);
    CountsMove(s, t, e.id);
    if s.pcs[e.id] == Missed { CountDecides(s, e.id); }
    FullStaysFull(s, t, e.id);
    BurstCounts(s);
  }

  lemma {:induction false} BurstKeepsInv(s: Pool, es: seq<Event>)
    requires Inv(s) && BurstInv(s) && IsBurst(es)
    requires Exec(s, es).Some? && Fits(s, es)
    ensures Inv(Exec(s, es).value) && BurstInv(Exec(s, es).value)
    decreases |es|
  {
    if es != [] {
      assert es[0] in es;
      StepKeepsInv(s, es[0]);
      BurstStep(s, es[0]);
      BurstKeepsInv(Step(s, es[0]).value, es[1..]);
    }
  }

  function Min(a: int, b: int): int { if a < b then a else b }

  lemma {:induction false} ParkedCounts(s: Pool)
    requires Inv(s) && BurstInv(s) && Parked(s)
    ensures var n := |s.pcs|;
            var running := Min(n, s.size);
            var queued := Min(n - running, Cap(s));
            && Num(s, Serving) == running == s.sem
            && Num(s, Queued) == queued == InWindow(s)
            && Num(s, TooMany) == n - running - queued
  {
    BurstCounts(s);
    NoneOf(s, Start); NoneOf(s, Missed); NoneOf(s, Shedding);
    CountPositive(s.pcs, TooMany);
  }

  lemma {:induction false} InitBurst(size: nat, maxWaiting: int, n: nat)
    ensures Inv(Init(size, maxWaiting, n)) && BurstInv(Init(size, maxWaiting, n))
  {
    InitInv(size, maxWaiting, n);
    InitCounts(size, maxWaiting, n);
    var s0 := Init(size, maxWaiting, n);
    forall pc | pc != Start ensures Num(s0, pc) == 0 { CountInit(size, maxWaiting, n, pc); }
    CountAll(s0.pcs);
  }

  /** MAIN RESULT.  However n requests interleave, once all are parked or answered exactly
      min(n, size) run, the queue holds as many of the rest as it may, all others got 429,
      and both shared variables say so. */
  lemma {:induction false} BurstExact(size: nat, maxWaiting: int, n: nat, es: seq<Event>)
    requires IsBurst(es) && Exec(Init(size, maxWaiting, n), es).Some? && Fits(Init(size, maxWaiting, n), es)
    requires Parked(Exec(Init(size, maxWaiting, n), es).value)
    ensures var s := Exec(Init(size, maxWaiting, n), es).value;
            var running := Min(n, size);
            var queued := Min(n - running, Cap(s));
            && Num(s, Serving) == running == s.sem
            && Num(s, Queued) == queued == s.waiting
            && Num(s, TooMany) == n - running - queued
  {
    var s0 := Init(size, maxWaiting, n);
    InitBurst(size, maxWaiting, n);
    BurstKeepsInv(s0, es);
    ExecKeepsInv(s0, es);
    FitsPrefix(s0, es, 0);
    WindowIsWaiting(Exec(s0, es).value);
    ParkedCounts(Exec(s0, es).value);
  }

  /** A burst that cannot go on has parked or answered everyone. */
  lemma {:induction false} BurstGoesOn(s: Pool)
    requires Inv(s) && BurstInv(s) && !Parked(s)
    ensures exists e: Event :: IsBurst([e]) && Step(s, e).Some?
  {
    var pc :| pc in s.pcs && pc !in {Serving, Queued, TooMany};
    var i :| 0 <= i < |s.pcs| && s.pcs[i] == pc;
    var e := if pc == Start then TrySlot(i) else if pc == Missed then Count(i) else Uncount(i);
    assert Step(s, e).Some? && IsBurst([e]);
  }
}
