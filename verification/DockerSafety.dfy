/** What holds of the containers in every reachable state. */
module DockerSafety {
  import opened Option
  import opened DockerModel

  /** The container a run has to do with, if it knows or once knew one. */
  function IdOf(pc: RunPc): Option<Id> {
    match pc
    case Created(id) => Some(id)
    case Holding(id) => Some(id)
    case Removing(id) => Some(id)
    case Leaked(_, id) => Some(id)
    case _ => None
  }

  /** The container exists for a reason: its run has it between create and removal, or leaked
      it by a lost reply, a failed removal or a crash. */
  predicate Accounted(s: State, id: Id)
    requires id in s.store
  {
    s.store[id].owner < |s.runs| && IdOf(s.runs[s.store[id].owner]) == Some(id)
  }

  predicate ItemFits(s: State, item: Item) {
    item.id < s.nextId && (item.id in s.store ==> item.createdSec == s.store[item.id].created / SECOND)
  }

  /** A container that was a minute old at the listing is still to come in the pass. */
  predicate StillDue(s: State, at: nat, items: seq<Item>, id: Id)
    requires id in s.store
  {
    s.store[id].created + REAP_MAX_AGE <= at ==> exists k :: 0 <= k < |items| && items[k].id == id
  }

  ghost predicate ReaperInv(s: State, pc: ReaperPc) {
    match pc
    case Off => true
    case Listed(at, items) =>
      at <= s.clock && (forall k :: 0 <= k < |items| ==> ItemFits(s, items[k]))
      && forall id :: id in s.store ==> StillDue(s, at, items, id)
    case Scanning(at, now, items, clean) =>
      at <= now <= s.clock && (forall k :: 0 <= k < |items| ==> ItemFits(s, items[k]))
      && (clean ==> forall id :: id in s.store ==> StillDue(s, at, items, id))
    case Finished(at, clean) =>
      at <= s.clock && (clean ==> forall id :: id in s.store ==> s.store[id].created + REAP_MAX_AGE > at)
  }

  ghost predicate StoreInv(s: State) {
    && (forall id :: id in s.store ==> id < s.nextId && s.store[id].created <= s.clock && Accounted(s, id))
    && (forall r :: 0 <= r < |s.runs| && IdOf(s.runs[r]).Some? ==> Own(s, r, IdOf(s.runs[r]).value))
  }

  predicate Own(s: State, r: nat, id: Id) { id < s.nextId && (id in s.store ==> s.store[id].owner == r) }

  ghost predicate Inv(s: State) {
    StoreInv(s) && forall p :: 0 <= p < |s.reapers| ==> ReaperInv(s, s.reapers[p])
  }

  /** A run's own step makes a container of its own, or keeps or loses the one it knows. */
  lemma {:induction false} RunStepEffect(s: State, r: nat, e: Event)
    requires r < |s.runs| && StepRun(s, r, e).Some?
    ensures var (pc, store, nextId) := StepRun(s, r, e).value; var before := IdOf(s.runs[r]);
            if nextId == s.nextId then
              && store.Keys <= s.store.Keys && (forall id :: id in store ==> store[id] == s.store[id])
              && (IdOf(pc) == before || (IdOf(pc) == None && before.Some? && before.value !in store))
            else
              && before == None && IdOf(pc) == Some(s.nextId) && nextId == s.nextId + 1
              && store == s.store[s.nextId := Container(r, s.clock)]
  {
  }

  lemma {:induction false} RunKeepsStore(s: State, r: nat, e: Event)
    requires StoreInv(s) && ByRun(s, r, e).Some?
    ensures StoreInv(ByRun(s, r, e).value)
  {
    RunStepEffect(s, r, e);
    hide StepRun, IdOf;
    var t := ByRun(s, r, e).value;
    forall id | id in t.store ensures id < t.nextId && t.store[id].created <= t.clock && Accounted(t, id) {
      if id in s.store { assert Accounted(s, id); }
    }
    forall q | 0 <= q < |t.runs| && IdOf(t.runs[q]).Some? ensures Own(t, q, IdOf(t.runs[q]).value) {
      if IdOf(s.runs[q]).Some? { assert Own(s, q, IdOf(s.runs[q]).value); }
    }
  }

  /** The store only grows by containers created now, and otherwise shrinks. */
  predicate Evolves(s: State, t: State) {
    && s.clock <= t.clock && s.nextId <= t.nextId
    && forall id :: id in t.store ==>
         if id in s.store then t.store[id] == s.store[id] else s.nextId <= id && t.store[id].created == t.clock
  }

  lemma {:induction false} ReaperInvEvolves(s: State, t: State, pc: ReaperPc)
    requires ReaperInv(s, pc) && Evolves(s, t)
    ensures ReaperInv(t, pc)
  {
  }

  lemma {:induction false} ShrinkKeepsStore(s: State, t: State)
    requires StoreInv(s) && t.store.Keys <= s.store.Keys && (forall id :: id in t.store ==> t.store[id] == s.store[id])
    requires t.runs == s.runs && t.nextId == s.nextId && t.clock >= s.clock
    ensures StoreInv(t)
  {
  }

  lemma {:induction false} ListingFits(s: State, order: seq<Id>)
    requires StoreInv(s)
    ensures forall k :: 0 <= k < |Listing(s.store, order)| ==> ItemFits(s, Listing(s.store, order)[k])
  {
    ListingAt(s.store, order);
  }

  /** A reaper's own step keeps what is known of its pass. */
  lemma {:induction false} OwnReaperStep(s: State, p: nat, e: Event)
    requires StoreInv(s) && p < |s.reapers| && ReaperInv(s, s.reapers[p]) && ByReaper(s, p, e).Some?
    ensures ReaperInv(ByReaper(s, p, e).value, ByReaper(s, p, e).value.reapers[p])
  {
    var t := ByReaper(s, p, e).value;
    match (e, s.reapers[p])
    case (Next(_, gone), Scanning(at, now, items, clean)) => NextKeeps(s, t, p, at, now, items, clean, gone);
    case (List(_, order), _) =>
      ListingFits(s, order);
      ListingAt(s.store, order);
      var items := Listing(s.store, order);
      assert t.reapers[p] == Listed(s.clock, items);
      forall id | id in t.store ensures StillDue(t, s.clock, items, id) {
        assert ItemOf(s.store, id) in items;
      }
      forall k | 0 <= k < |items| ensures ItemFits(t, items[k]) { assert ItemFits(s, items[k]); }
    case (Now(_), Listed(at, items)) =>
      forall id | id in t.store ensures StillDue(t, at, items, id) { assert StillDue(s, at, items, id); }
      forall k | 0 <= k < |items| ensures ItemFits(t, items[k]) { assert ItemFits(s, items[k]); }
    case (Cancel(_), _) =>
  }

  lemma {:induction false} NextKeeps(s: State, t: State, p: nat, at: nat, now: nat, items: seq<Item>, clean: bool, gone: bool)
    requires p < |s.reapers| && s.reapers[p] == Scanning(at, now, items, clean) && ReaperInv(s, s.reapers[p])
    requires ByReaper(s, p, Next(p, gone)) == Some(t)
    ensures ReaperInv(t, t.reapers[p])
  {
  }

  // ------------------------------------------------------------- age arithmetic

  /** Second-granularity ages: selected means the whole seconds differ by 60. */
  lemma {:induction false} OrphanExactly(created: int, now: int)
    ensures IsOrphan(created / SECOND, now, REAP_MAX_AGE) <==> now / SECOND - created / SECOND >= 60
  {
    assert (now - REAP_MAX_AGE) / SECOND == now / SECOND - 60;
  }

  /** MAIN RESULT.  Everything selected is truly older than 59 seconds, everything a minute old
      is selected, and neither bound can be improved. */
  lemma {:induction false} AgeBounds(created: int, now: int)
    ensures IsOrphan(created / SECOND, now, REAP_MAX_AGE) ==> now - created > 59 * SECOND
    ensures now - created >= 60 * SECOND ==> IsOrphan(created / SECOND, now, REAP_MAX_AGE)
    ensures IsOrphan((1 * SECOND - 1) / SECOND, 60 * SECOND, REAP_MAX_AGE)
    ensures !IsOrphan(0 / SECOND, 60 * SECOND - 1, REAP_MAX_AGE)
  {
    OrphanExactly(created, now);
  }

  // ---------------------------------------------------------------- every step

  lemma {:induction false} StepEvolves(s: State, e: Event)
    requires StoreInv(s) && Step(s, e).Some?
    ensures Evolves(s, Step(s, e).value)
  {
  }

  lemma {:induction false} CrashKeepsStore(s: State)
    requires StoreInv(s)
    ensures StoreInv(Step(s, CrashAll).value)
  {
  }

  predicate ReaperEvent(e: Event) { e.List? || e.Now? || e.Next? || e.Cancel? }

  lemma {:induction false} StepKeepsStore(s: State, e: Event)
    requires StoreInv(s) && Step(s, e).Some?
    ensures StoreInv(Step(s, e).value)
  {
    hide StoreInv, ByRun;
    if e.CrashAll? {
      CrashKeepsStore(s);
    } else if e.Tick? || e.Vanish? || ReaperEvent(e) {
      ShrinkKeepsStore(s, Step(s, e).value);
    } else {
      RunKeepsStore(s, e.r, e);
    }
  }

  lemma {:induction false} StepKeepsInv(s: State, e: Event)
    requires Inv(s) && Step(s, e).Some?
    ensures Inv(Step(s, e).value)
  {
    hide StoreInv, ReaperInv, StepRun, StepReaper, Evolves;
    var t := Step(s, e).value;
    StepKeepsStore(s, e);
    StepEvolves(s, e);
    if ReaperEvent(e) { OwnReaperStep(s, e.p, e); }
    forall p | 0 <= p < |t.reapers| ensures ReaperInv(t, t.reapers[p]) {
      if e.CrashAll? {
        OffIsFine(t);
      } else if !(ReaperEvent(e) && p == e.p) {
        ReaperInvEvolves(s, t, s.reapers[p]);
      }
    }
  }

  lemma {:induction false} OffIsFine(t: State)
    ensures ReaperInv(t, Off)
  {
  }

  lemma {:induction false} ExecKeepsInv(s: State, es: seq<Event>)
    requires Inv(s) && Exec(s, es).Some?
    ensures Inv(Exec(s, es).value)
    decreases |es|
  {
    hide Inv, Step;
    if es != [] {
      StepKeepsInv(s, es[0]);
      ExecKeepsInv(Step(s, es[0]).value, es[1..]);
    }
  }

  lemma {:induction false} InitInv(runs: nat, reapers: nat)
    ensures Inv(Init(runs, reapers))
  {
  }

  /** MAIN RESULT.  Over every interleaving a container exists only while its own run is
      between create and removal, or because that run leaked it by a lost create reply, a
      failed removal or a crash; and no run ever knows another run's container. */
  lemma {:induction false} ContainersAccountedFor(runs: nat, reapers: nat, es: seq<Event>, id: Id)
    requires Exec(Init(runs, reapers), es).Some? && id in Exec(Init(runs, reapers), es).value.store
    ensures var s := Exec(Init(runs, reapers), es).value;
            && s.store[id].owner < |s.runs|
            && s.runs[s.store[id].owner] in {Created(id), Holding(id), Removing(id),
                                              Leaked(LostReply, id), Leaked(FailedRemove, id), Leaked(Crash, id)}
            && forall r :: 0 <= r < |s.runs| && IdOf(s.runs[r]) == Some(id) ==> r == s.store[id].owner
  {
    InitInv(runs, reapers);
    ExecKeepsInv(Init(runs, reapers), es);
    var s := Exec(Init(runs, reapers), es).value;
    assert Accounted(s, id);
    var pc := s.runs[s.store[id].owner];
    if pc.Leaked? { assert pc.cause == LostReply || pc.cause == FailedRemove || pc.cause == Crash; }
    forall r | 0 <= r < |s.runs| && IdOf(s.runs[r]) == Some(id) ensures r == s.store[id].owner { assert Own(s, r, id); }
  }

  /** MAIN RESULT.  No reaper step removes a container that is 59 seconds old or younger, so a
      run that is through by then is never disturbed. */
  lemma {:induction false} ReaperSparesTheYoung(runs: nat, reapers: nat, es: seq<Event>, p: nat, gone: bool, id: Id)
    requires Exec(Init(runs, reapers), es).Some?
    requires Step(Exec(Init(runs, reapers), es).value, Next(p, gone)).Some?
    requires id in Exec(Init(runs, reapers), es).value.store
    ensures var s := Exec(Init(runs, reapers), es).value;
            s.clock - s.store[id].created <= 59 * SECOND ==> id in Step(s, Next(p, gone)).value.store
  {
    InitInv(runs, reapers);
    ExecKeepsInv(Init(runs, reapers), es);
    SparesTheYoung(Exec(Init(runs, reapers), es).value, p, gone, id);
  }

  lemma {:induction false} SparesTheYoung(s: State, p: nat, gone: bool, id: Id)
    requires Inv(s) && Step(s, Next(p, gone)).Some? && id in s.store
    ensures s.clock - s.store[id].created <= 59 * SECOND ==> id in Step(s, Next(p, gone)).value.store
  {
  }

  /** MAIN RESULT.  Exactly what a reaper step removes, in any interleaving: the container it
      has come to, when the removal works and the whole seconds from its creation to the
      reading of the clock are at least 60.  Whose container it is plays no part. */
  lemma {:induction false} NextRemovesExactly(runs: nat, reapers: nat, es: seq<Event>, p: nat, gone: bool, id: Id)
    requires Exec(Init(runs, reapers), es).Some?
    requires Step(Exec(Init(runs, reapers), es).value, Next(p, gone)).Some?
    requires id in Exec(Init(runs, reapers), es).value.store
    ensures var s := Exec(Init(runs, reapers), es).value;
            && p < |s.reapers| && s.reapers[p].Scanning?
            && var pc := s.reapers[p];
               (id !in Step(s, Next(p, gone)).value.store <==>
                 gone && pc.items != [] && pc.items[0].id == id && pc.now / SECOND - s.store[id].created / SECOND >= 60)
  {
    InitInv(runs, reapers);
    ExecKeepsInv(Init(runs, reapers), es);
    RemovesExactly(Exec(Init(runs, reapers), es).value, p, gone, id);
  }

  lemma {:induction false} RemovesExactly(s: State, p: nat, gone: bool, id: Id)
    requires Inv(s) && Step(s, Next(p, gone)).Some? && id in s.store
    ensures p < |s.reapers| && s.reapers[p].Scanning?
    ensures var pc := s.reapers[p];
            id !in Step(s, Next(p, gone)).value.store <==>
              gone && pc.items != [] && pc.items[0].id == id && pc.now / SECOND - s.store[id].created / SECOND >= 60
  {
    var pc := s.reapers[p];
    assert ReaperInv(s, pc);
    if pc.items != [] {
      assert ItemFits(s, pc.items[0]);
      OrphanExactly(s.store[id].created, pc.now);
    }
  }

  function ReapLive(d: nat): seq<Event> {
    [Send(0), DaemonCreate(0), Reply(0), Tick(d), List(0, [0]), Now(0), Next(0, true)]
  }

  const LIVE := map[0 := Container(0, 0)]

  function LiveStates(d: nat): seq<State> {
    [ State(0, 0, map[], [Idle], [Off]),
      State(0, 0, map[], [Creating], [Off]),
      State(0, 1, LIVE, [Created(0)], [Off]),
      State(0, 1, LIVE, [Holding(0)], [Off]),
      State(d, 1, LIVE, [Holding(0)], [Off]),
      State(d, 1, LIVE, [Holding(0)], [Listed(d, [Item(0, 0)])]),
      State(d, 1, LIVE, [Holding(0)], [Scanning(d, d, [Item(0, 0)], true)]),
      State(d, 1, map[], [Holding(0)], [Scanning(d, d, [], true)]) ]
  }

  /** So a run is not safe for being alive: whatever still has its container after a minute or
      more can lose it to the reaper, its removal not even due yet. */
  lemma {:induction false} LiveRunReaped(d: nat)
    requires d >= REAP_MAX_AGE
    ensures Exec(Init(1, 1), ReapLive(d)).Some?
    ensures var s := Exec(Init(1, 1), ReapLive(d)).value; s.runs == [Holding(0)] && s.store == map[]
  {
    hide Step, Init, Exec;
    assert Init(1, 1) == LiveStates(d)[0] by { StartsLive(d); }
    forall k | 0 <= k < 7 ensures Step(LiveStates(d)[k], ReapLive(d)[k]) == Some(LiveStates(d)[k + 1]) {
      if k < 4 { LiveSteps(d, k); } else if k < 6 { PassSteps(d, k); } else { ReapStep(d); }
    }
    Chain(Init(1, 1), ReapLive(d), LiveStates(d));
  }

  lemma {:induction false} StartsLive(d: nat)
    ensures Init(1, 1) == LiveStates(d)[0]
  {
  }

  lemma {:induction false} LiveSteps(d: nat, k: nat)
    requires k < 4
    ensures Step(LiveStates(d)[k], ReapLive(d)[k]) == Some(LiveStates(d)[k + 1])
  {
    var s, t := LiveStates(d)[k], LiveStates(d)[k + 1];
    assert k < 3 ==> s.runs[0 := t.runs[0]] == t.runs;
    assert map[][0 := Container(0, 0)] == LIVE;
  }

  lemma {:induction false} PassSteps(d: nat, k: nat)
    requires k == 4 || k == 5
    ensures Step(LiveStates(d)[k], ReapLive(d)[k]) == Some(LiveStates(d)[k + 1])
  {
    var s, t := LiveStates(d)[k], LiveStates(d)[k + 1];
    assert s.reapers[0 := t.reapers[0]] == t.reapers;
    var order: seq<Id> := [0];
    assert order[0] == 0 && order[1..] == [];
    assert Listing(LIVE, []) == [] && Listing(LIVE, order) == [ItemOf(LIVE, 0)] + Listing(LIVE, []);
    assert Listing(LIVE, order) == [Item(0, 0)];
    assert forall id :: id in LIVE ==> id in order;
  }

  lemma {:induction false} ReapStep(d: nat)
    requires d >= REAP_MAX_AGE
    ensures Step(LiveStates(d)[6], ReapLive(d)[6]) == Some(LiveStates(d)[7])
  {
    var s, t := LiveStates(d)[6], LiveStates(d)[7];
    OrphanExactly(0, d);
    assert [Item(0, 0)][1..] == [] && Delete(LIVE, 0) == map[];
    assert s.reapers[0 := t.reapers[0]] == t.reapers;
  }

  lemma {:induction false} Chain(s: State, es: seq<Event>, states: seq<State>)
    requires |states| == |es| + 1 && states[0] == s
    requires forall k :: 0 <= k < |es| ==> Step(states[k], es[k]) == Some(states[k + 1])
    ensures Exec(s, es) == Some(states[|es|])
    decreases |es|
  {
    hide Step;
    if es != [] { Chain(states[1], es[1..], states[1..]); }
  }

  /** MAIN RESULT.  A finished pass that left no orphan it met has removed every container that
      was a minute old when it took its listing, whatever else went on meanwhile. */
  lemma {:induction false} PassRemovesTheOld(runs: nat, reapers: nat, es: seq<Event>, p: nat, id: Id)
    requires Exec(Init(runs, reapers), es).Some?
    requires p < |Exec(Init(runs, reapers), es).value.reapers|
    requires var pc := Exec(Init(runs, reapers), es).value.reapers[p]; pc.Finished? && pc.clean
    requires id in Exec(Init(runs, reapers), es).value.store
    ensures var s := Exec(Init(runs, reapers), es).value;
            s.reapers[p].at - s.store[id].created < 60 * SECOND
  {
    InitInv(runs, reapers);
    ExecKeepsInv(Init(runs, reapers), es);
    var s := Exec(Init(runs, reapers), es).value;
    assert ReaperInv(s, s.reapers[p]);
  }
}
