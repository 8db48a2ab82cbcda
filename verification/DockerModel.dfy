/** Containers over the life of the daemon: any number of runs, reaper passes, lost replies,
    failed removals, crashes and outside removals, interleaved in any way.  Times are
    nanoseconds on one clock. */
module DockerModel {
  import opened Option

  const SECOND: int := 1_000_000_000
  const REAP_MAX_AGE: int := 60 * SECOND

  type Id = nat

  datatype Container = Container(owner: nat, created: nat)

  /** What a listing says of a container: its creation time truncated to seconds. */
  datatype Item = Item(id: Id, createdSec: nat)

  predicate IsOrphan(createdSec: int, now: int, maxAge: int) {
    createdSec <= (now - maxAge) / SECOND
  }

  datatype Cause = LostReply | FailedRemove | Crash

  /** Where a run stands. */
  datatype RunPc =
    | Idle
    | Creating                       // the create request is out
    | Created(id: Id)                // the container exists, the reply is not in yet
    | Holding(id: Id)                // the reply is in, the deferred remove is registered
    | Removing(id: Id)               // the run has returned, the deferred remove is due
    | Refused                        // no container came of the request
    | Pending(cause: Cause)          // nobody waits for the request any more
    | Leaked(cause: Cause, id: Id)   // nobody of this run will try to remove it any more
    | Cleaned(id: Id)                // the deferred remove succeeded

  /** Where a reaper pass stands; at is when the listing was taken, clean is whether every
      orphan met so far is gone. */
  datatype ReaperPc =
    | Off
    | Listed(at: nat, items: seq<Item>)
    | Scanning(at: nat, now: nat, items: seq<Item>, clean: bool)
    | Finished(at: nat, clean: bool)

  datatype State = State(clock: nat, nextId: Id, store: map<Id, Container>, runs: seq<RunPc>, reapers: seq<ReaperPc>)

  datatype Event =
    | Send(r: nat)
    | DaemonCreate(r: nat)
    | DaemonRefuse(r: nat)
    | Reply(r: nat)
    | LoseReply(r: nat)
    | Return(r: nat)
    | Remove(r: nat, gone: bool, ok: bool)
    | List(p: nat, order: seq<Id>)
    | Now(p: nat)
    | Next(p: nat, gone: bool)
    | Cancel(p: nat)
    | Vanish(id: Id)
    | CrashAll
    | Tick(d: nat)

  function Init(runs: nat, reapers: nat): State {
    State(0, 0, map[], seq(runs, _ => Idle), seq(reapers, _ => Off))
  }

  function Delete(store: map<Id, Container>, id: Id): map<Id, Container> { store - {id} }

  /** A listing of the store, in the order the daemon chooses. */
  function Listing(store: map<Id, Container>, order: seq<Id>): seq<Item> {
    if order == [] then []
    else (if order[0] in store then [ItemOf(store, order[0])] else []) + Listing(store, order[1..])
  }

  function ItemOf(store: map<Id, Container>, id: Id): Item
    requires id in store
  {
    Item(id, store[id].created / SECOND)
  }

  lemma {:induction false} ListingAt(store: map<Id, Container>, order: seq<Id>)
    ensures forall item :: item in Listing(store, order) ==> item.id in store && item == ItemOf(store, item.id)
    ensures forall id :: id in store && id in order ==> ItemOf(store, id) in Listing(store, order)
  {
    if order != [] {
      ListingAt(store, order[1..]);
      assert order == [order[0]] + order[1..];
    }
  }

  /** One turn of the reaper's loop. */
  function ReapOne(store: map<Id, Container>, item: Item, now: int, maxAge: int, gone: bool): map<Id, Container> {
    if IsOrphan(item.createdSec, now, maxAge) && gone then Delete(store, item.id) else store
  }

  function CrashRun(pc: RunPc): RunPc {
    match pc
    case Creating => Pending(Crash)
    case Created(id) => Leaked(Crash, id)
    case Holding(id) => Leaked(Crash, id)
    case Removing(id) => Leaked(Crash, id)
    case _ => pc
  }

  /** The next state of one run by one of its own events. */
  function StepRun(s: State, r: nat, e: Event): Option<(RunPc, map<Id, Container>, Id)>
    requires r < |s.runs|
  {
    match (e, s.runs[r])
    case (Send(_), Idle) => Some((Creating, s.store, s.nextId))
    case (DaemonCreate(_), Creating) =>
      Some((Created(s.nextId), s.store[s.nextId := Container(r, s.clock)], s.nextId + 1))
    case (DaemonCreate(_), Pending(cause)) =>
      Some((Leaked(cause, s.nextId), s.store[s.nextId := Container(r, s.clock)], s.nextId + 1))
    case (DaemonRefuse(_), Creating) => Some((Refused, s.store, s.nextId))
    case (DaemonRefuse(_), Pending(_)) => Some((Refused, s.store, s.nextId))
    case (Reply(_), Created(id)) => Some((Holding(id), s.store, s.nextId))
    case (LoseReply(_), Creating) => Some((Pending(LostReply), s.store, s.nextId))
    case (LoseReply(_), Created(id)) => Some((Leaked(LostReply, id), s.store, s.nextId))
    case (Return(_), Holding(id)) => Some((Removing(id), s.store, s.nextId))
    case (Remove(_, gone, ok), Removing(id)) =>
      if ok && !gone then None
      else Some((if ok then Cleaned(id) else Leaked(FailedRemove, id),
                 if gone then Delete(s.store, id) else s.store, s.nextId))
    case _ => None
  }

  /** The next state of one reaper by one of its own events. */
  function StepReaper(s: State, p: nat, e: Event): Option<(ReaperPc, map<Id, Container>)>
    requires p < |s.reapers|
  {
    match (e, s.reapers[p])
    case (List(_, order), Off) => StartPass(s, order)
    case (List(_, order), Finished(_, _)) => StartPass(s, order)
    case (Now(_), Listed(at, items)) => Some((Scanning(at, s.clock, items, true), s.store))
    case (Next(_, gone), Scanning(at, now, items, clean)) =>
      if items == [] then Some((Finished(at, clean), s.store))
      else
        var store := ReapOne(s.store, items[0], now, REAP_MAX_AGE, gone);
        var left := IsOrphan(items[0].createdSec, now, REAP_MAX_AGE) && items[0].id in store;
        Some((Scanning(at, now, items[1..], clean && !left), store))
    case (Cancel(_), _) => Some((Off, s.store))
    case _ => None
  }

  function StartPass(s: State, order: seq<Id>): Option<(ReaperPc, map<Id, Container>)> {
    if forall id :: id in s.store ==> id in order then Some((Listed(s.clock, Listing(s.store, order)), s.store)) else None
  }

  function Step(s: State, e: Event): Option<State> {
    match e
    case Tick(d) => Some(s.(clock := s.clock + d))
    case Vanish(id) => Some(s.(store := Delete(s.store, id)))
    case CrashAll =>
      Some(s.(runs := seq(|s.runs|, k requires 0 <= k < |s.runs| => CrashRun(s.runs[k])),
              reapers := seq(|s.reapers|, _ => Off)))
    case List(p, _) => ByReaper(s, p, e)
    case Now(p) => ByReaper(s, p, e)
    case Next(p, _) => ByReaper(s, p, e)
    case Cancel(p) => ByReaper(s, p, e)
    case _ => ByRun(s, e.r, e)
  }

  function ByRun(s: State, r: nat, e: Event): Option<State> {
    if r >= |s.runs| then None else
    match StepRun(s, r, e)
    case None => None
    case Some((pc, store, nextId)) => Some(s.(runs := s.runs[r := pc], store := store, nextId := nextId))
  }

  function ByReaper(s: State, p: nat, e: Event): Option<State> {
    if p >= |s.reapers| then None else
    match StepReaper(s, p, e)
    case None => None
    case Some((pc, store)) => Some(s.(reapers := s.reapers[p := pc], store := store))
  }

  function Exec(s: State, es: seq<Event>): Option<State>
    decreases |es|
  {
    if es == [] then Some(s) else
    match Step(s, es[0])
    case None => None
    case Some(t) => Exec(t, es[1..])
  }
}
