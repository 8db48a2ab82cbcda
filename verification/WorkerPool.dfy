/** The worker pool itself: the two shared variables, the atomic actions on them, and the
    middleware that a request runs, with the other requests acting in between. */
module WorkerPools {
  import opened Option
  import opened GoInt
  import opened PoolModel
  import opened PoolSafety
  import opened PoolProgress

  /** How the middleware ends for one request; Blocked when it still waits in its select. */
  datatype Answer = Handled(panicked: bool) | Shed429 | Expired408 | Blocked

  /** One look at the second select: what the others do before it, whether the request's context
      has ended, and which case is taken when both are ready. */
  datatype Look = Look(others: seq<Event>, ctxDone: bool, preferSlot: bool)

  class WorkerPool {
    const size: nat
    const maxWaiting: int32
    var sem: nat
    var waiting: int32
    var pcs: seq<Pc>   // where each request stands in its copy of Middleware

    constructor (size: nat, maxWaiting: int, n: nat)
      ensures View() == Init(size, maxWaiting, n) && Inv(View())
    {
      this.size := size;
      this.maxWaiting := ToInt32(maxWaiting);
      sem, waiting := 0, 0;
      pcs := seq(n, _ => Start);
      new;
      InitInv(size, maxWaiting, n);
    }

    ghost function View(): Pool
      reads this
    {
      Pool(size, maxWaiting, sem, waiting, pcs)
    }

    // ------------------------------------------------------ atomic actions

    /** The first select: a send on the channel, or the default branch when it is full. */
    method TryAcquire(i: nat) returns (got: bool)
      requires PcOf(View(), i) == Start && i < |pcs|
      modifies this
      ensures Step(old(View()), TrySlot(i)) == Some(View())
      ensures PcOf(View(), i) == if got then Serving else Missed
    {
      got := sem < size;
      if got { sem := sem + 1; }
      pcs := pcs[i := if got then Serving else Missed];
    }

    /** Add(1) and the comparison of the value it returned. */
    method AddWaiting(i: nat) returns (within: bool)
      requires PcOf(View(), i) == Missed
      modifies this
      ensures Step(old(View()), Count(i)) == Some(View())
      ensures PcOf(View(), i) == if within then Queued else Shedding
    {
      waiting := ToInt32(waiting + 1);
      within := waiting <= maxWaiting;
      pcs := pcs[i := if within then Queued else Shedding];
    }

    /** The send of the second select goes through. */
    method Acquire(i: nat)
      requires PcOf(View(), i) == Queued && sem < size
      modifies this
      ensures Step(old(View()), Grant(i)) == Some(View()) && PcOf(View(), i) == Granted
    {
      sem := sem + 1;
      pcs := pcs[i := Granted];
    }

    /** The other case of the second select: the request's context ended. */
    method GiveUp(i: nat)
      requires PcOf(View(), i) == Queued
      modifies this
      ensures Step(old(View()), Expire(i)) == Some(View()) && PcOf(View(), i) == Expired
    {
      pcs := pcs[i := Expired];
    }

    /** Add(-1). */
    method SubWaiting(i: nat)
      requires PcOf(View(), i) in {Granted, Expired, Shedding}
      modifies this
      ensures Step(old(View()), Uncount(i)) == Some(View())
      ensures PcOf(View(), i) == match old(PcOf(View(), i))
                                 case Granted => Serving
                                 case Expired => TimedOut
                                 case _ => TooMany
    {
      waiting := ToInt32(waiting - 1);
      pcs := pcs[i := match pcs[i] case Granted => Serving case Expired => TimedOut case _ => TooMany];
    }

    /** The deferred receive, when the handler returned or panicked. */
    method Release(i: nat, panicked: bool)
      requires Inv(View()) && PcOf(View(), i) == Serving
      modifies this
      ensures Step(old(View()), Return(i, panicked)) == Some(View()) && PcOf(View(), i) == Served(panicked)
    {
      ReturnPossible(View(), i);
      assert Step(View(), Return(i, panicked)).Some?;
      sem := sem - 1;
      pcs := pcs[i := Served(panicked)];
    }

    /** Takes an event if it is possible now. */
    method Perform(e: Event) returns (done: bool)
      requires Inv(View())
      modifies this
      ensures done <==> Step(old(View()), e).Some?
      ensures View() == if done then Step(old(View()), e).value else old(View())
    {
      done := false;
      if e.id < |pcs| {
        match e {
          case TrySlot(i) =>
            if pcs[i] == Start { var _ := TryAcquire(i); done := true; }
          case Count(i) =>
            if pcs[i] == Missed { var _ := AddWaiting(i); done := true; }
          case Grant(i) =>
            if pcs[i] == Queued && sem < size { Acquire(i); done := true; }
          case Expire(i) =>
            if pcs[i] == Queued { GiveUp(i); done := true; }
          case Uncount(i) =>
            if pcs[i] in {Granted, Expired, Shedding} { SubWaiting(i); done := true; }
          case Return(i, panicked) =>
            if pcs[i] == Serving { Release(i, panicked); done := true; }
        }
      }
    }

    // -------------------------------------------------- interference

    /** The other requests take any of the events of a schedule, in its order; es0 is what
        happened since s0. */
    method Others(i: nat, schedule: seq<Event>, ghost s0: Pool, ghost es0: seq<Event>) returns (ghost es: seq<Event>)
      requires Inv(View()) && Exec(s0, es0) == Some(View())
      modifies this
      ensures Inv(View()) && |pcs| == old(|pcs|)
      ensures Exec(s0, es) == Some(View())
      ensures PcOf(View(), i) == old(PcOf(View(), i))
    {
      es := es0;
      for k := 0 to |schedule|
        invariant Inv(View()) && |pcs| == old(|pcs|)
        invariant Exec(s0, es) == Some(View())
        invariant PcOf(View(), i) == old(PcOf(View(), i))
      {
        if schedule[k].id != i {
          ghost var before := View();
          var done := Perform(schedule[k]);
          if done {
            StepEffect(before, schedule[k]);
            es := Extend(s0, es, before, schedule[k]);
          }
        }
      }
    }

    /** The second select: blocks, look after look, until a slot is free or the context ends. */
    method Await(i: nat, looks: seq<Look>, ghost s0: Pool, ghost es0: seq<Event>) returns (answer: Option<bool>, ghost es: seq<Event>)
      requires Inv(View()) && Exec(s0, es0) == Some(View()) && i < |pcs| && PcOf(View(), i) == Queued
      modifies this
      ensures Inv(View()) && |pcs| == old(|pcs|) && Exec(s0, es) == Some(View())
      ensures PcOf(View(), i) == match answer
                                 case Some(granted) => if granted then Granted else Expired
                                 case None => Queued
      ensures answer == Some(false) ==> exists k :: 0 <= k < |looks| && looks[k].ctxDone
      ensures answer == None ==> (forall k :: 0 <= k < |looks| ==> !looks[k].ctxDone) && (looks != [] ==> sem == size)
    {
      hide Inv, Step, IsPath, Projection;
      es := es0;
      for k := 0 to |looks|
        invariant Inv(View()) && |pcs| == old(|pcs|) && Exec(s0, es) == Some(View())
        invariant PcOf(View(), i) == Queued
        invariant forall j :: 0 <= j < k ==> !looks[j].ctxDone
        invariant k > 0 ==> sem == size
      {
        es := Others(i, looks[k].others, s0, es);
        ghost var s := View();
        NoMoreThanSize(s);
        if sem < size && (looks[k].preferSlot || !looks[k].ctxDone) {
          Acquire(i);
          es := Extend(s0, es, s, Grant(i));
          return Some(true), es;
        }
        if looks[k].ctxDone {
          GiveUp(i);
          es := Extend(s0, es, s, Expire(i));
          return Some(false), es;
        }
      }
      answer := None;
    }

    /** What a request goes through; the schedules say what the others do between its atomic
        actions.  It is still blocked only if at every look the pool was full and the context
        had not ended. */
    method Middleware(i: nat, others: seq<seq<Event>>, looks: seq<Look>, panics: bool)
      returns (answer: Answer, ghost es: seq<Event>)
      requires Inv(View()) && i < |pcs| && pcs[i] == Start && |others| == 4
      modifies this
      ensures Inv(View()) && |pcs| == old(|pcs|)
      ensures Exec(old(View()), es) == Some(View())
      ensures IsPath(PcOf(View(), i), i, Projection(es, i))
      ensures PcOf(View(), i) == match answer
                                 case Handled(panicked) => Served(panicked)
                                 case Shed429 => TooMany
                                 case Expired408 => TimedOut
                                 case Blocked => Queued
      ensures answer.Handled? ==> answer.panicked == panics
      ensures answer == Expired408 ==> exists k :: 0 <= k < |looks| && looks[k].ctxDone
      ensures answer == Blocked ==> (forall k :: 0 <= k < |looks| ==> !looks[k].ctxDone) && (looks != [] ==> sem == size)
    {
      hide Inv, Step, IsPath, Projection;
      ghost var s0 := View();
      var got := TryAcquire(i);
      es := Extend(s0, [], s0, TrySlot(i));
      if !got {
        es := Others(i, others[0], s0, es);
        ghost var s := View();
        var within := AddWaiting(i);
        es := Extend(s0, es, s, Count(i));
        if !within {
          es := Others(i, others[1], s0, es);
          s := View();
          SubWaiting(i);
          es := Extend(s0, es, s, Uncount(i));
          Follow(s0, es, i);
          return Shed429, es;
        }
        var granted;
        granted, es := Await(i, looks, s0, es);
        if granted == None {
          Follow(s0, es, i);
          return Blocked, es;
        }
        es := Others(i, others[2], s0, es);
        s := View();
        SubWaiting(i);
        es := Extend(s0, es, s, Uncount(i));
        if granted == Some(false) {
          Follow(s0, es, i);
          return Expired408, es;
        }
      }
      es := Others(i, others[3], s0, es);
      ghost var s := View();
      Release(i, panics);
      es := Extend(s0, es, s, Return(i, panics));
      Follow(s0, es, i);
      answer := Handled(panics);
    }
  }

  lemma {:induction false} NoMoreThanSize(s: Pool)
    requires Inv(s)
    ensures s.sem <= s.size
  {
  }

  lemma {:induction false} Extend(s0: Pool, es: seq<Event>, s: Pool, e: Event) returns (fs: seq<Event>)
    requires Inv(s) && Exec(s0, es) == Some(s) && Step(s, e).Some?
    ensures fs == es + [e] && Exec(s0, fs) == Step(s, e)
    ensures Inv(Step(s, e).value) && |Step(s, e).value.pcs| == |s.pcs|
  {
    ExecAppend(s0, es, [e]);
    assert [e][1..] == [];
    assert Exec(s, [e]) == Exec(Step(s, e).value, []);
    StepKeepsInv(s, e);
    StepEffect(s, e);
    fs := es + [e];
  }

  lemma {:induction false} Follow(s0: Pool, es: seq<Event>, i: nat)
    requires PcOf(s0, i) == Start && Exec(s0, es).Some?
    ensures IsPath(PcOf(Exec(s0, es).value, i), i, Projection(es, i))
  {
    ExecExtendsPath(s0, es, i, []);
    assert [] + Projection(es, i) == Projection(es, i);
  }
}
