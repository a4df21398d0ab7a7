/** The single-flight snapshot cache of `hooks/useTerminalSnapshot.ts`. */
module SnapshotCache {
  import opened Wrappers

  const STALE_MS := 60_000

  /** A full snapshot has its lanes as an array; the lite one has an object. */
  datatype Lanes = ArrayLanes(rows: seq<string>) | ObjectLanes | NoLanes

  datatype Snapshot = Snapshot(lanes: Lanes, body: string, lite: bool)

  predicate IsFull(s: Snapshot) {
    s.lanes.ArrayLanes?
  }

  /** What a subscriber is told. */
  datatype Notice = Notice(snapshot: Option<Snapshot>, error: Option<string>)

  /** How the request behind a promise ends: a decoded body, or an error of any kind. */
  datatype Answer = Data(snapshot: Snapshot) | Failed(message: string)

  /** What a shared promise settles to. */
  datatype Settled = Resolved(snapshot: Snapshot) | Rejected(message: string)

  /** What a call gets at once: the cached snapshot, or a promise, by number. */
  datatype LoadResult = Cached(snapshot: Snapshot) | Promise(id: nat)

  /**
   * The module's variables, and beside them what the outside world sees: requests still running,
   * promises answered but not yet past their `finally`, settled promises, and each subscriber's
   * notices in order.
   */
  datatype State = State(
    cache: Option<Snapshot>,
    lastFetch: int,
    inflight: Option<nat>,
    lastError: Option<string>,
    subscribers: set<nat>,
    polling: bool,
    running: set<nat>,
    finishing: set<nat>,
    settled: map<nat, Settled>,
    inbox: map<nat, seq<Notice>>,
    nextId: nat)

  const INITIAL := State(None, 0, None, None, {}, false, {}, {}, map[], map[], 0)

  function NoticesOf(inbox: map<nat, seq<Notice>>, sub: nat): seq<Notice> {
    if sub in inbox then inbox[sub] else []
  }

  function Deliver(inbox: map<nat, seq<Notice>>, subs: set<nat>, n: Notice): map<nat, seq<Notice>> {
    map s | s in inbox.Keys + subs :: if s in subs then NoticesOf(inbox, s) + [n] else NoticesOf(inbox, s)
  }

  // ---- One step each ----

  predicate Fresh(s: State, now: int) {
    s.cache.Some? && now - s.lastFetch < STALE_MS
  }

  /** The call sends a request. */
  predicate Starts(s: State, now: int) {
    !Fresh(s, now) && s.inflight == None
  }

  function AfterLoad(s: State, now: int): State {
    if Starts(s, now) then s.(inflight := Some(s.nextId), running := s.running + {s.nextId}, nextId := s.nextId + 1)
    else s
  }

  function LoadGets(s: State, now: int): LoadResult {
    if Fresh(s, now) then Cached(s.cache.value)
    else if s.inflight.Some? then Promise(s.inflight.value)
    else Promise(s.nextId)
  }

  function AfterAnswer(s: State, id: nat, a: Answer, now: int): State {
    var t := s.(running := s.running - {id}, finishing := s.finishing + {id});
    match a
    case Data(d) =>
      var data := d.(lite := false);
      var u := t.(settled := t.settled[id := Resolved(data)]);
      if IsFull(data) then
        u.(cache := Some(data), lastFetch := now, lastError := None, inbox := Deliver(s.inbox, s.subscribers, Notice(Some(data), None)))
      else u
    case Failed(message) =>
      var shown := if s.cache.Some? && IsFull(s.cache.value) then s.cache else None;
      t.(lastError := Some(message),
         settled := t.settled[id := if shown.Some? then Resolved(shown.value) else Rejected(message)],
         inbox := Deliver(s.inbox, s.subscribers, Notice(shown, Some(message))))
  }

  function AfterFinally(s: State, id: nat): State {
    s.(inflight := None, finishing := s.finishing - {id})
  }

  class Module {
    var cache: Option<Snapshot>
    var lastFetch: int
    var inflight: Option<nat>
    var lastError: Option<string>
    var subscribers: set<nat>
    var polling: bool
    var inbox: map<nat, seq<Notice>>
    ghost var running: set<nat>
    ghost var finishing: set<nat>
    ghost var settled: map<nat, Settled>
    var nextId: nat

    ghost function View(): State
      reads this
    {
      State(cache, lastFetch, inflight, lastError, subscribers, polling, running, finishing, settled, inbox, nextId)
    }

    constructor ()
      ensures View() == INITIAL
    {
      cache, lastFetch, inflight, lastError := None, 0, None, None;
      subscribers, polling, inbox, nextId := {}, false, map[], 0;
      running, finishing, settled := {}, {}, map[];
    }

    method Notify(snapshot: Option<Snapshot>, error: Option<string>)
      modifies this`inbox
      ensures inbox == Deliver(old(inbox), subscribers, Notice(snapshot, error))
    {
      var todo := subscribers;
      var told := {};
      assert inbox == Deliver(old(inbox), told, Notice(snapshot, error));
      while todo != {}
        invariant todo + told == subscribers && todo !! told
        invariant inbox == Deliver(old(inbox), told, Notice(snapshot, error))
        decreases todo
      {
        var sub :| sub in todo;
        inbox := inbox[sub := NoticesOf(inbox, sub) + [Notice(snapshot, error)]];
        todo, told := todo - {sub}, told + {sub};
      }
      assert told == subscribers;
    }

    method LoadSnapshot(now: int) returns (r: LoadResult)
      modifies this
      ensures View() == AfterLoad(old(View()), now)
      ensures r == LoadGets(old(View()), now)
    {
      if cache.Some? && now - lastFetch < STALE_MS {
        return Cached(cache.value);
      }
      if inflight.Some? {
        return Promise(inflight.value);
      }
      inflight := Some(nextId);
      running := running + {nextId};
      nextId := nextId + 1;
      return Promise(inflight.value);
    }

    /** The request behind promise `id` ends. */
    method Answered(id: nat, a: Answer, now: int)
      requires id in running
      modifies this
      ensures View() == AfterAnswer(old(View()), id, a, now)
    {
      running, finishing := running - {id}, finishing + {id};
      match a
      case Data(d) =>
        var data := d.(lite := false);
        if IsFull(data) {
          cache := Some(data);
          lastFetch := now;
          lastError := None;
          Notify(cache, None);
        }
        settled := settled[id := Resolved(data)];
      case Failed(message) =>
        lastError := Some(message);
        if cache.Some? && IsFull(cache.value) {
          Notify(cache, lastError);
          settled := settled[id := Resolved(cache.value)];
          return;
        }
        Notify(None, lastError);
        settled := settled[id := Rejected(message)];
    }

    /** The `finally` callback of promise `id`. */
    method Finally(id: nat)
      requires id in finishing
      modifies this
      ensures View() == AfterFinally(old(View()), id)
    {
      inflight := None;
      finishing := finishing - {id};
    }

    method Subscribe(sub: nat)
      modifies this
      ensures View() == old(View()).(subscribers := old(subscribers) + {sub}, polling := true)
    {
      subscribers := subscribers + {sub};
      if !polling {
        polling := true;
      }
    }

    method Unsubscribe(sub: nat)
      modifies this
      ensures View() == old(View()).(subscribers := old(subscribers) - {sub})
    {
      subscribers := subscribers - {sub};
    }

    /** A timer tick or a visibility change: a load, unless nobody listens or the page is hidden. */
    method Tick(hidden: bool, now: int)
      modifies this
      ensures View() == if old(subscribers) == {} || hidden then old(View()) else AfterLoad(old(View()), now)
    {
      if subscribers == {} || hidden {
        return;
      }
      var _ := LoadSnapshot(now);
    }
  }

  // ---- Every run ----

  datatype Event =
    | Load(now: int)
    | Poll(hidden: bool, now: int)
    | Reply(id: nat, answer: Answer, now: int)
    | Finish(id: nat)
    | Join(sub: nat)
    | Leave(sub: nat)

  /** A request can only be answered while it runs, a promise only finish after its answer. */
  function Next(s: State, e: Event): State {
    match e
    case Load(now) => AfterLoad(s, now)
    case Poll(hidden, now) => if !s.polling || s.subscribers == {} || hidden then s else AfterLoad(s, now)
    case Reply(id, a, now) => if id in s.running then AfterAnswer(s, id, a, now) else s
    case Finish(id) => if id in s.finishing then AfterFinally(s, id) else s
    case Join(sub) => s.(subscribers := s.subscribers + {sub}, polling := true)
    case Leave(sub) => s.(subscribers := s.subscribers - {sub})
  }

  function Run(events: seq<Event>): State {
    if events == [] then INITIAL else Next(Run(events[..|events| - 1]), events[|events| - 1])
  }

  predicate FullOrNone(o: Option<Snapshot>) {
    o.Some? ==> IsFull(o.value)
  }

  ghost predicate OnlyFullShown(s: State) {
    && FullOrNone(s.cache)
    && forall sub :: sub in s.inbox ==> forall i :: 0 <= i < |s.inbox[sub]| ==> FullOrNone(s.inbox[sub][i].snapshot)
  }

  /** The promise in flight is the only one whose request runs or whose `finally` is due. */
  ghost predicate SingleFlight(s: State) {
    && s.running !! s.finishing
    && s.running + s.finishing == (if s.inflight.Some? then {s.inflight.value} else {})
    && (forall id :: id in s.settled ==> id < s.nextId)
    && (s.inflight.Some? ==> s.inflight.value < s.nextId && (s.inflight.value in s.settled <==> s.inflight.value in s.finishing))
  }

  lemma LoadKeepsSingleFlight(s: State, now: int)
    requires SingleFlight(s)
    ensures SingleFlight(AfterLoad(s, now))
  {
    if Starts(s, now) {
      assert s.running == {} && s.finishing == {};
    }
  }

  lemma ReplyKeepsSingleFlight(s: State, id: nat, a: Answer, now: int)
    requires SingleFlight(s) && id in s.running
    ensures SingleFlight(AfterAnswer(s, id, a, now))
  {
    var t := AfterAnswer(s, id, a, now);
    assert id in s.running + s.finishing;
    assert t.running + t.finishing == s.running + s.finishing;
    assert t.settled.Keys == s.settled.Keys + {id};
  }

  lemma FinallyKeepsSingleFlight(s: State, id: nat)
    requires SingleFlight(s) && id in s.finishing
    ensures SingleFlight(AfterFinally(s, id))
  {
    assert id in s.running + s.finishing;
    assert s.running + s.finishing == {id};
  }

  lemma {:induction false} SingleFlightAlways(events: seq<Event>)
    ensures SingleFlight(Run(events))
    ensures |Run(events).running| <= 1
    decreases |events|
  {
    if events == [] {
    } else {
      var front, e := events[..|events| - 1], events[|events| - 1];
      SingleFlightAlways(front);
      var s := Run(front);
      match e
      case Load(now) => LoadKeepsSingleFlight(s, now);
      case Poll(_, now) => LoadKeepsSingleFlight(s, now);
      case Reply(id, a, now) => if id in s.running { ReplyKeepsSingleFlight(s, id, a, now); }
      case Finish(id) => if id in s.finishing { FinallyKeepsSingleFlight(s, id); }
      case Join(_) =>
      case Leave(_) =>
    }
    AtMostOneRuns(Run(events));
  }

  lemma AtMostOneRuns(s: State)
    requires SingleFlight(s)
    ensures |s.running| <= 1
  {
    if s.running != {} {
      var id :| id in s.running;
      assert id in s.running + s.finishing;
      assert s.running == {id};
    }
  }

  lemma DeliverKeepsFull(inbox: map<nat, seq<Notice>>, subs: set<nat>, n: Notice)
    requires FullOrNone(n.snapshot)
    requires forall sub :: sub in inbox ==> forall i :: 0 <= i < |inbox[sub]| ==> FullOrNone(inbox[sub][i].snapshot)
    ensures forall sub :: sub in Deliver(inbox, subs, n) ==>
      forall i :: 0 <= i < |Deliver(inbox, subs, n)[sub]| ==> FullOrNone(Deliver(inbox, subs, n)[sub][i].snapshot)
  {
  }

  /** The cache, and every snapshot a subscriber is handed, is a full one; the cache never empties again. */
  lemma {:induction false} CacheStaysFull(events: seq<Event>, k: nat)
    requires k <= |events|
    ensures OnlyFullShown(Run(events))
    ensures Run(events[..k]).cache.Some? ==> Run(events).cache.Some?
    decreases |events|
  {
    if k == |events| {
      assert events[..k] == events;
    }
    if events == [] {
    } else {
      var n := |events| - 1;
      var front, e := events[..n], events[n];
      CacheStaysFull(front, if k <= n then k else n);
      assert k <= n ==> front[..k] == events[..k];
      var s := Run(front);
      if e.Reply? && e.id in s.running {
        match e.answer
        case Data(d) =>
          if IsFull(d) {
            DeliverKeepsFull(s.inbox, s.subscribers, Notice(Some(d.(lite := false)), None));
          }
        case Failed(message) =>
          DeliverKeepsFull(s.inbox, s.subscribers, Notice(s.cache, Some(message)));
      }
    }
  }

  /** When the last full snapshot landed, if any has. */
  function LastFullSuccess(events: seq<Event>): Option<int> {
    if events == [] then None
    else
      var front, e := events[..|events| - 1], events[|events| - 1];
      if e.Reply? && e.id in Run(front).running && e.answer.Data? && IsFull(e.answer.snapshot) then Some(e.now)
      else LastFullSuccess(front)
  }

  lemma {:induction false} LastFetchIsLastSuccess(events: seq<Event>)
    ensures Run(events).cache.Some? <==> LastFullSuccess(events).Some?
    ensures LastFullSuccess(events).Some? ==> Run(events).lastFetch == LastFullSuccess(events).value
    decreases |events|
  {
    if events == [] {
    } else {
      LastFetchIsLastSuccess(events[..|events| - 1]);
    }
  }

  function TimeOf(e: Event): int
    requires e.Load? || e.Poll?
  {
    match e
    case Load(now) => now
    case Poll(_, now) => now
  }

  /** A request starts only with none in flight, and never within 60 seconds of the last full success. */
  lemma NoEarlyRefetch(events: seq<Event>, e: Event)
    requires Next(Run(events), e).nextId != Run(events).nextId
    ensures e.Load? || e.Poll?
    ensures Run(events).running == {} && Run(events).finishing == {}
    ensures LastFullSuccess(events).Some? ==> TimeOf(e) - LastFullSuccess(events).value >= STALE_MS
  {
    SingleFlightAlways(events);
    LastFetchIsLastSuccess(events);
  }

  /**
   * When a request fails, every current subscriber is told the error together with the cached
   * snapshot if there is one, and every caller sharing the promise gets that snapshot instead of
   * the error; nobody else is told, and the cache stays.
   */
  lemma FailureFallsBackToCache(events: seq<Event>, id: nat, message: string, now: int)
    requires id in Run(events).running
    ensures
      var s, t := Run(events), Run(events + [Reply(id, Failed(message), now)]);
      && t.cache == s.cache && t.lastFetch == s.lastFetch && t.lastError == Some(message)
      && (forall sub :: NoticesOf(t.inbox, sub) ==
            if sub in s.subscribers then NoticesOf(s.inbox, sub) + [Notice(s.cache, Some(message))] else NoticesOf(s.inbox, sub))
      && id in t.settled && t.settled[id] == (if s.cache.Some? then Resolved(s.cache.value) else Rejected(message))
  {
    var e := Reply(id, Failed(message), now);
    assert (events + [e])[..|events|] == events;
    CacheStaysFull(events, 0);
  }

  lemma StepKeepsSettled(s: State, e: Event, id: nat)
    requires SingleFlight(s) && id in s.settled
    ensures id in Next(s, e).settled && Next(s, e).settled[id] == s.settled[id]
  {
    if e.Reply? && e.id in s.running {
      assert e.id in s.running + s.finishing;
    }
  }

  /** A settled promise keeps its outcome, so all callers that share it see the same. */
  lemma {:induction false} SettledOnce(events: seq<Event>, k: nat, id: nat)
    requires k <= |events| && id in Run(events[..k]).settled
    ensures id in Run(events).settled && Run(events).settled[id] == Run(events[..k]).settled[id]
    decreases |events|
  {
    if k == |events| {
      assert events[..k] == events;
    } else {
      var front := events[..|events| - 1];
      assert front[..k] == events[..k];
      SettledOnce(front, k, id);
      SingleFlightAlways(front);
      StepKeepsSettled(Run(front), events[|events| - 1], id);
    }
  }
  /** The body of the last full answer, as it is passed on: no longer marked as lite. */
  function LastFullBody(events: seq<Event>): Option<Snapshot> {
    if events == [] then None
    else
      var front, e := events[..|events| - 1], events[|events| - 1];
      if e.Reply? && e.id in Run(front).running && e.answer.Data? && e.answer.snapshot.lanes.ArrayLanes?
      then Some(Snapshot(e.answer.snapshot.lanes, e.answer.snapshot.body, false))
      else LastFullBody(front)
  }

  /** The cache is the body of the last full answer. */
  lemma {:induction false} CacheIsLastFullBody(events: seq<Event>)
    ensures Run(events).cache == LastFullBody(events)
    decreases |events|
  {
    if events == [] {
    } else {
      CacheIsLastFullBody(events[..|events| - 1]);
    }
  }

  /**
   * A load is answered from the cache exactly within 60 s of the last full success. Otherwise it gets
   * the promise in flight, new if there was none, whose request has not been settled and finished.
   */
  lemma LoadIsServedExactly(events: seq<Event>, now: int)
    ensures
      var s, t, got := Run(events), AfterLoad(Run(events), now), LoadGets(Run(events), now);
      && (got.Cached? <==> LastFullSuccess(events).Some? && now - LastFullSuccess(events).value < 60_000)
      && (got.Cached? ==> t == s && Some(got.snapshot) == LastFullBody(events))
      && (got.Promise? ==> t.inflight == Some(got.id) && (got.id in t.running || got.id in t.finishing))
      && (got.Promise? && s.inflight.Some? ==> t == s)
      && (got.Promise? && s.inflight == None ==> got.id in t.running - s.running && got.id !in s.settled)
  {
    SingleFlightAlways(events);
    LoadKeepsSingleFlight(Run(events), now);
    LastFetchIsLastSuccess(events);
    CacheIsLastFullBody(events);
    var t := AfterLoad(Run(events), now);
    assert t.inflight.Some? ==> t.inflight.value in t.running + t.finishing;
  }

  /**
   * A body resolves its promise, whatever its shape. A full one is told to every subscriber and clears
   * the error; any other one is told to nobody and leaves cache and error alone.
   */
  lemma BodyReachesAll(events: seq<Event>, id: nat, d: Snapshot, now: int)
    requires id in Run(events).running
    ensures
      var s, t := Run(events), Run(events + [Reply(id, Data(d), now)]);
      var data := Snapshot(d.lanes, d.body, false);
      && id in t.settled && t.settled[id] == Resolved(data)
      && id !in t.running && id in t.finishing
      && (forall sub :: NoticesOf(t.inbox, sub) ==
            if sub in s.subscribers && d.lanes.ArrayLanes? then NoticesOf(s.inbox, sub) + [Notice(Some(data), None)]
            else NoticesOf(s.inbox, sub))
      && t.lastError == (if d.lanes.ArrayLanes? then None else s.lastError)
      && t.cache == (if d.lanes.ArrayLanes? then Some(data) else s.cache)
  {
    var e := Reply(id, Data(d), now);
    assert (events + [e])[..|events|] == events;
  }
  /** The timer runs from the first subscription on. */
  lemma {:induction false} PollingSinceFirstJoin(events: seq<Event>)
    ensures Run(events).polling <==> exists i :: 0 <= i < |events| && events[i].Join?
    decreases |events|
  {
    if events == [] {
    } else {
      var front := events[..|events| - 1];
      PollingSinceFirstJoin(front);
      if i :| 0 <= i < |front| && front[i].Join? {
        assert events[i].Join?;
      }
      if i :| 0 <= i < |events| && events[i].Join? {
        assert i < |front| ==> front[i].Join?;
      }
    }
  }

  /** A tick does what a load does, exactly while somebody listens and the page is visible; otherwise nothing. */
  lemma TickLoadsExactly(events: seq<Event>, hidden: bool, now: int)
    ensures Run(events + [Poll(hidden, now)]) ==
      if (exists i :: 0 <= i < |events| && events[i].Join?) && Run(events).subscribers != {} && !hidden
      then Run(events + [Load(now)]) else Run(events)
  {
    PollingSinceFirstJoin(events);
    assert (events + [Poll(hidden, now)])[..|events|] == events;
    assert (events + [Load(now)])[..|events|] == events;
  }
}
