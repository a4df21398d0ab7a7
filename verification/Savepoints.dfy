/** The browser savepoint of `hooks/useChamberHydration.ts`. */
module Savepoints {
  import opened Wrappers

  datatype Savepoint<P> = Savepoint(payload: P, count: int, savedAt: string)

  datatype Source = FromLive | FromSaved

  datatype Reason = BeforeLiveFetch | LiveThinnerThanSaved | LiveFetchFailed

  datatype Meta = Meta(source: Source, savedAt: Option<string>, savedCount: int, liveCount: int, reason: Option<Reason>)

  /** A payload on screen, with the note attached to it if any. */
  datatype Shown<P> = Shown(payload: P, meta: Option<Meta>)

  /** The hook's options: whether a key is given, the least count worth saving, and the two callbacks. */
  datatype Options<!P> = Options(keyed: bool, minCount: int, count: P -> int, filter: Option<(P, P) -> bool>)

  datatype State<P> = State(storage: Option<Savepoint<P>>, full: Option<Shown<P>>, degraded: bool, error: Option<string>)

  /**
   * The end of one load: a decoded response, whose payload is None when the JSON is no object, or a
   * failure. `stored` says whether local storage accepts a write, `now` is the current time.
   */
  datatype Event<P> =
    | Reply(payload: Option<P>, degraded: bool, stored: bool, now: string)
    | Failure(message: string)

  predicate Keeps<P>(o: Options<P>, live: P, saved: P) {
    o.filter == None || o.filter.value(live, saved)
  }

  predicate UsesSaved<P>(o: Options<P>, storage: Option<Savepoint<P>>, live: P) {
    && storage.Some?
    && storage.value.count >= o.minCount
    && o.count(live) < storage.value.count
    && Keeps(o, live, storage.value.payload)
  }

  function CountIn<P>(storage: Option<Savepoint<P>>): int {
    if storage.Some? then storage.value.count else 0
  }

  function Saved<P>(s: Savepoint<P>, liveCount: int, reason: Reason): Shown<P> {
    Shown(s.payload, Some(Meta(FromSaved, Some(s.savedAt), s.count, liveCount, Some(reason))))
  }

  function AfterReply<P>(o: Options<P>, s: State<P>, payload: Option<P>, degraded: bool, stored: bool, now: string): State<P> {
    if payload == None then State(s.storage, None, degraded, None)
    else if !o.keyed then State(s.storage, Some(Shown(payload.value, None)), degraded, None)
    else
      var live := payload.value;
      var n := o.count(live);
      if UsesSaved(o, s.storage, live) then
        State(s.storage, Some(Saved(s.storage.value, n, LiveThinnerThanSaved)), true, None)
      else if n >= o.minCount || n >= CountIn(s.storage) then
        State(if stored then Some(Savepoint(live, n, now)) else s.storage,
              Some(Shown(live, Some(Meta(FromLive, if stored then Some(now) else None, n, n, None)))), degraded, None)
      else State(s.storage, Some(Shown(live, None)), degraded, None)
  }

  /** The saved payload takes the screen when it is worth showing. */
  function ShowSaved<P>(o: Options<P>, s: State<P>, reason: Reason): State<P> {
    if o.keyed && s.storage.Some? && o.count(s.storage.value.payload) >= o.minCount then
      s.(full := Some(Saved(s.storage.value, 0, reason)), degraded := true)
    else s
  }

  function Next<P>(o: Options<P>, s: State<P>, e: Event<P>): State<P> {
    match e
    case Reply(payload, degraded, stored, now) => AfterReply(o, s, payload, degraded, stored, now)
    case Failure(message) => ShowSaved(o, s, LiveFetchFailed).(error := Some(message))
  }

  /** One mounted hook over one storage key. Payloads are JSON values, hence the type's restrictions. */
  class Chamber<P(!new, ==)> {
    const options: Options<P>
    var storage: Option<Savepoint<P>>
    var full: Option<Shown<P>>
    var degraded: bool
    var error: Option<string>

    function View(): State<P>
      reads this
    {
      State(storage, full, degraded, error)
    }

    /** Mounting shows a savepoint that is worth showing before the first load. */
    constructor (options: Options<P>, storage: Option<Savepoint<P>>)
      ensures this.options == options
      ensures View() == ShowSaved(options, State(storage, None, false, None), BeforeLiveFetch)
    {
      this.options := options;
      this.storage := storage;
      full, degraded, error := None, false, None;
      new;
      if options.keyed && storage.Some? && options.count(storage.value.payload) >= options.minCount {
        full := Some(Saved(storage.value, 0, BeforeLiveFetch));
        degraded := true;
      }
    }

    method Load(e: Event<P>)
      modifies this
      ensures View() == Next(options, old(View()), e)
    {
      match e
      case Reply(livePayload, envelopeDegraded, stored, now) =>
        var nextPayload: Option<Shown<P>> := None;
        var savepointDegraded := false;
        if livePayload.Some? {
          var live := livePayload.value;
          nextPayload := Some(Shown(live, None));
          if options.keyed {
            var liveCount := options.count(live);
            var savedCount := if storage.Some? then storage.value.count else 0;
            var useSaved := storage.Some? && savedCount >= options.minCount && liveCount < savedCount
                         && (options.filter == None || options.filter.value(live, storage.value.payload));
            if useSaved {
              nextPayload := Some(Saved(storage.value, liveCount, LiveThinnerThanSaved));
              savepointDegraded := true;
            } else if liveCount >= options.minCount || liveCount >= savedCount {
              var savedAt := None;
              if stored {
                storage := Some(Savepoint(live, liveCount, now));
                savedAt := Some(now);
              }
              nextPayload := Some(Shown(live, Some(Meta(FromLive, savedAt, liveCount, liveCount, None))));
            }
          }
        }
        full := nextPayload;
        degraded := envelopeDegraded || savepointDegraded;
        error := None;
      case Failure(message) =>
        if options.keyed && storage.Some? && options.count(storage.value.payload) >= options.minCount {
          full := Some(Saved(storage.value, 0, LiveFetchFailed));
          degraded := true;
        }
        error := Some(message);
    }
  }

  /** The response yields to what is stored. */
  predicate Yields<P>(o: Options<P>, s: State<P>, live: P) {
    && o.keyed && s.storage.Some? && s.storage.value.count >= o.minCount && o.count(live) < s.storage.value.count
    && (o.filter.Some? ==> o.filter.value(live, s.storage.value.payload))
  }

  /**
   * What the note on screen says is so: a response that yields leaves the storage alone and shows the
   * stored payload with both counts; any other one is shown, with a note exactly when it was worth
   * saving, which says whether and when it was saved.
   */
  lemma NoteTellsTruth<P>(o: Options<P>, s: State<P>, live: P, degraded: bool, stored: bool, now: string)
    ensures
      var after, n := Next(o, s, Reply(Some(live), degraded, stored, now)), o.count(live);
      && after.full.Some? && after.error == None
      && (after.degraded <==> degraded || Yields(o, s, live))
      && (if Yields(o, s, live) then
            && after.storage == s.storage && after.full.value.payload == s.storage.value.payload
            && after.full.value.meta ==
                 Some(Meta(FromSaved, Some(s.storage.value.savedAt), s.storage.value.count, n, Some(LiveThinnerThanSaved)))
          else
            && after.full.value.payload == live
            && (after.full.value.meta.Some? <==> o.keyed && (n >= o.minCount || n >= CountIn(s.storage)))
            && (after.full.value.meta.Some? ==>
                  && after.full.value.meta.value == Meta(FromLive, if stored then Some(now) else None, n, n, None)
                  && after.storage == if stored then Some(Savepoint(live, n, now)) else s.storage)
            && (after.full.value.meta == None ==> after.storage == s.storage))
  {
  }

  /**
   * A response that is no object clears the screen. A failure says why, keeps the storage, and shows
   * the stored payload if that is worth showing; else the screen stays as it was.
   */
  lemma OtherEndsKeepStorage<P>(o: Options<P>, s: State<P>, degraded: bool, stored: bool, now: string, message: string)
    ensures Next(o, s, Reply(None, degraded, stored, now)) == State(s.storage, None, degraded, None)
    ensures
      var after := Next(o, s, Failure(message));
      && after.storage == s.storage && after.error == Some(message)
      && (if o.keyed && s.storage.Some? && o.count(s.storage.value.payload) >= o.minCount then
            && after.degraded
            && after.full == Some(Shown(s.storage.value.payload,
                 Some(Meta(FromSaved, Some(s.storage.value.savedAt), s.storage.value.count, 0, Some(LiveFetchFailed)))))
          else after.full == s.full && after.degraded == s.degraded)
  {
  }

  // ---- Without a filter: the running maximum ----

  function Run<P>(o: Options<P>, start: State<P>, events: seq<Event<P>>): State<P> {
    if events == [] then start else Next(o, Run(o, start, events[..|events| - 1]), events[|events| - 1])
  }

  function Max(a: int, b: int): int {
    if a < b then b else a
  }

  /** Exactly when one load leaves the greater of the saved and the live count. */
  lemma SavedCountIsMaximumExactly<P>(o: Options<P>, s: State<P>, live: P, degraded: bool, now: string)
    requires o.keyed && o.filter == None
    ensures
      var after := AfterReply(o, s, Some(live), degraded, true, now);
      (CountIn(after.storage) == Max(CountIn(s.storage), o.count(live))) <==> !(s.storage == None && o.minCount <= o.count(live) < 0)
  {
  }

  function MaxCount<P>(o: Options<P>, start: int, events: seq<Event<P>>): int {
    if events == [] then start
    else
      var earlier, e := MaxCount(o, start, events[..|events| - 1]), events[|events| - 1];
      if e.Reply? && e.payload.Some? then Max(earlier, o.count(e.payload.value)) else earlier
  }

  /** Every write succeeds, and no negative count passes for worth saving. */
  ghost predicate Plain<P(!new)>(o: Options<P>, events: seq<Event<P>>) {
    && o.keyed && o.filter == None
    && forall i :: 0 <= i < |events| && events[i].Reply? ==>
         events[i].stored && (events[i].payload.Some? ==> !(o.minCount <= o.count(events[i].payload.value) < 0))
  }

  /** The saved count is the greatest of the initial count and every live count so far. */
  lemma {:induction false} SavedCountIsRunningMaximum<P(!new)>(o: Options<P>, start: State<P>, events: seq<Event<P>>)
    requires Plain(o, events)
    ensures CountIn(Run(o, start, events).storage) == MaxCount(o, CountIn(start.storage), events)
    decreases |events|
  {
    if events == [] {
    } else {
      var n := |events| - 1;
      assert Plain(o, events[..n]) by {
        assert forall i :: 0 <= i < n ==> events[..n][i] == events[i];
      }
      SavedCountIsRunningMaximum(o, start, events[..n]);
    }
  }

  predicate HasCount<P>(o: Options<P>, e: Event<P>, n: int) {
    e.Reply? && e.payload.Some? && o.count(e.payload.value) == n
  }

  predicate BelowCount<P>(o: Options<P>, e: Event<P>, n: int) {
    e.Reply? && e.payload.Some? ==> o.count(e.payload.value) < n
  }

  /** The k-th response is the last one with the saved count, and is what is stored. */
  ghost predicate LatestBest<P>(o: Options<P>, storage: Option<Savepoint<P>>, events: seq<Event<P>>, k: nat)
    requires k < |events|
  {
    && storage.Some?
    && HasCount(o, events[k], storage.value.count)
    && storage == Some(Savepoint(events[k].payload.value, storage.value.count, events[k].now))
    && forall j :: k < j < |events| ==> BelowCount(o, events[j], storage.value.count)
  }

  /** What is stored is the latest response attaining the maximum, or the initial savepoint if none does. */
  lemma {:induction false} StoredIsLatestMaximum<P(!new)>(o: Options<P>, start: State<P>, events: seq<Event<P>>)
    requires Plain(o, events)
    ensures
      var storage := Run(o, start, events).storage;
      || (storage == start.storage && forall j :: 0 <= j < |events| ==> BelowCount(o, events[j], CountIn(storage)))
      || exists k :: 0 <= k < |events| && LatestBest(o, storage, events, k)
    decreases |events|
  {
    if events == [] {
    } else {
      var n := |events| - 1;
      var front, e := events[..n], events[n];
      assert forall i :: 0 <= i < n ==> front[i] == events[i];
      assert Plain(o, front);
      StoredIsLatestMaximum(o, start, front);
      var before, after := Run(o, start, front).storage, Run(o, start, events).storage;
      if BelowCount(o, e, CountIn(before)) {
        assert after == before;
        if k :| 0 <= k < n && LatestBest(o, before, front, k) {
          assert LatestBest(o, after, events, k);
        }
      } else {
        assert LatestBest(o, after, events, n);
      }
    }
  }

  /** The count kept beside a stored payload is that payload's count. */
  predicate Consistent<P>(o: Options<P>, s: State<P>) {
    s.storage.Some? ==> s.storage.value.count == o.count(s.storage.value.payload)
  }

  /** A decoded response that is no object. */
  predicate IsNonObject<P>(e: Event<P>) {
    e.Reply? && e.payload == None
  }

  /** What is on screen, if anything, is no fuller than what is saved, and not worth saving if nothing is. */
  predicate Backed<P>(o: Options<P>, s: State<P>) {
    s.full.Some? ==>
      && o.count(s.full.value.payload) <= CountIn(s.storage)
      && (s.storage == None ==> o.count(s.full.value.payload) < o.minCount)
  }

  /** The screen shows exactly as many items as are saved. */
  predicate ShowsSavedCount<P>(o: Options<P>, s: State<P>) {
    s.full.Some? && o.count(s.full.value.payload) == CountIn(s.storage)
  }

  lemma PlainFront<P(!new)>(o: Options<P>, events: seq<Event<P>>, k: nat)
    requires Plain(o, events) && k <= |events|
    ensures Plain(o, events[..k])
  {
    assert forall i :: 0 <= i < k ==> events[..k][i] == events[i];
  }

  lemma {:induction false} RunStaysConsistent<P(!new)>(o: Options<P>, start: State<P>, events: seq<Event<P>>)
    requires Plain(o, events) && Consistent(o, start) && Backed(o, start)
    ensures Consistent(o, Run(o, start, events)) && Backed(o, Run(o, start, events))
    decreases |events|
  {
    if events == [] {
    } else {
      PlainFront(o, events, |events| - 1);
      RunStaysConsistent(o, start, events[..|events| - 1]);
    }
  }

  /**
   * Whenever what is saved is worth showing, the screen shows as many items as are saved if and only
   * if the last event was not a response that is no object; earlier ones do not matter.
   */
  lemma ShownCountIsSavedCountExactly<P(!new)>(o: Options<P>, start: State<P>, events: seq<Event<P>>)
    requires Plain(o, events) && Consistent(o, start) && Backed(o, start) && events != []
    requires
      var storage := Run(o, start, events).storage;
      storage.Some? && storage.value.count >= o.minCount
    ensures ShowsSavedCount(o, Run(o, start, events)) <==> !IsNonObject(events[|events| - 1])
  {
    var n := |events| - 1;
    PlainFront(o, events, n);
    RunStaysConsistent(o, start, events[..n]);
    assert events[n].Reply? ==> events[n].stored;
  }

  /** The state right after mounting meets the hypotheses of the run lemmas. */
  lemma MountedIsBacked<P>(o: Options<P>, storage: Option<Savepoint<P>>)
    requires Consistent(o, State(storage, None, false, None))
    ensures
      var mounted := ShowSaved(o, State(storage, None, false, None), BeforeLiveFetch);
      Consistent(o, mounted) && Backed(o, mounted)
  {
  }

  lemma {:induction false} MaxCountGrows<P>(o: Options<P>, start: int, events: seq<Event<P>>, k: nat)
    requires k <= |events|
    ensures MaxCount(o, start, events[..k]) <= MaxCount(o, start, events)
    decreases |events|
  {
    if k == |events| {
      assert events[..k] == events;
    } else {
      var n := |events| - 1;
      assert events[..n][..k] == events[..k];
      MaxCountGrows(o, start, events[..n], k);
    }
  }

  lemma {:induction false} StorageStays<P>(o: Options<P>, start: State<P>, events: seq<Event<P>>, k: nat)
    requires k <= |events| && Run(o, start, events[..k]).storage.Some?
    ensures Run(o, start, events).storage.Some?
    decreases |events|
  {
    if k == |events| {
      assert events[..k] == events;
    } else {
      var n := |events| - 1;
      assert events[..n][..k] == events[..k];
      StorageStays(o, start, events[..n], k);
    }
  }

  /**
   * Whatever was on screen at any earlier moment, if it was worth saving, something at least as full
   * is on screen now, if and only if the last event was not a response that is no object.
   */
  lemma ShownNeverThinnerExactly<P(!new)>(o: Options<P>, start: State<P>, events: seq<Event<P>>, k: nat)
    requires Plain(o, events) && Consistent(o, start) && Backed(o, start)
    requires k < |events|
    requires
      var shown := Run(o, start, events[..k]).full;
      shown.Some? && o.count(shown.value.payload) >= o.minCount
    ensures
      var before, after := Run(o, start, events[..k]).full.value, Run(o, start, events).full;
      (after.Some? && o.count(after.value.payload) >= o.count(before.payload)) <==> !IsNonObject(events[|events| - 1])
  {
    PlainFront(o, events, k);
    RunStaysConsistent(o, start, events[..k]);
    SavedCountIsRunningMaximum(o, start, events[..k]);
    SavedCountIsRunningMaximum(o, start, events);
    MaxCountGrows(o, CountIn(start.storage), events, k);
    StorageStays(o, start, events, k);
    ShownCountIsSavedCountExactly(o, start, events);
  }

  // ---- With the ledger's filter ----

  /** Keep the saved payload only when it is of the response's cycle. */
  ghost predicate FiltersByCycle<P(!new)>(o: Options<P>, cycle: P -> Option<string>) {
    && o.keyed && o.filter.Some?
    && forall live, saved :: o.filter.value(live, saved) <==> cycle(saved) == cycle(live)
  }

  ghost predicate AllStored<P(!new)>(events: seq<Event<P>>) {
    forall i :: 0 <= i < |events| && events[i].Reply? ==> events[i].stored
  }

  function CycleIn<P>(cycle: P -> Option<string>, storage: Option<Savepoint<P>>): Option<Option<string>> {
    if storage.Some? then Some(cycle(storage.value.payload)) else None
  }

  /** The event that last changed the cycle of what is stored, or brought the first savepoint. */
  function LastChange<P>(o: Options<P>, cycle: P -> Option<string>, start: State<P>, events: seq<Event<P>>): (k: Option<nat>)
    ensures k.Some? ==> k.value < |events|
  {
    if events == [] then None
    else
      var n := |events| - 1;
      if CycleIn(cycle, Run(o, start, events).storage) != CycleIn(cycle, Run(o, start, events[..n]).storage) then Some(n)
      else LastChange(o, cycle, start, events[..n])
  }

  predicate OfCycle<P>(cycle: P -> Option<string>, e: Event<P>, c: Option<string>) {
    e.Reply? && e.payload.Some? && cycle(e.payload.value) == c
  }

  /** The greatest of a first count and the counts of all responses of one cycle. */
  function MaxOfCycle<P>(o: Options<P>, cycle: P -> Option<string>, c: Option<string>, first: int, events: seq<Event<P>>): int {
    if events == [] then first
    else
      var earlier, e := MaxOfCycle(o, cycle, c, first, events[..|events| - 1]), events[|events| - 1];
      if OfCycle(cycle, e, c) then Max(earlier, o.count(e.payload.value)) else earlier
  }

  /**
   * The saved count is the maximum over the stored cycle's responses from the event that last changed
   * the stored cycle, or over all of them and the initial count when none did.
   */
  ghost predicate MaximumOfItsCycle<P>(o: Options<P>, cycle: P -> Option<string>, start: State<P>, events: seq<Event<P>>) {
    var storage, k := Run(o, start, events).storage, LastChange(o, cycle, start, events);
    storage.Some? ==>
      var c := cycle(storage.value.payload);
      if k == None then
        start.storage.Some? && storage.value.count == MaxOfCycle(o, cycle, c, start.storage.value.count, events)
      else
        && OfCycle(cycle, events[k.value], c)
        && storage.value.count == MaxOfCycle(o, cycle, c, o.count(events[k.value].payload.value), events[k.value + 1..])
  }

  /** How one load moves what is stored: within a cycle to the maximum, else to the response when the cycle changes. */
  lemma FilteredStep<P(!new)>(o: Options<P>, cycle: P -> Option<string>, s: State<P>, e: Event<P>)
    requires FiltersByCycle(o, cycle) && (e.Reply? ==> e.stored)
    ensures
      var after := Next(o, s, e).storage;
      && (s.storage.Some? ==> after.Some?)
      && (CycleIn(cycle, after) != CycleIn(cycle, s.storage) ==>
            after.Some? && OfCycle(cycle, e, cycle(after.value.payload)) && after.value.count == o.count(e.payload.value))
      && (CycleIn(cycle, after) == CycleIn(cycle, s.storage) && after.Some? ==>
            after.value.count ==
              if OfCycle(cycle, e, cycle(after.value.payload)) then Max(s.storage.value.count, o.count(e.payload.value))
              else s.storage.value.count)
  {
  }

  lemma LoadKeepsMaximumOfItsCycle<P(!new)>(o: Options<P>, cycle: P -> Option<string>, start: State<P>, events: seq<Event<P>>)
    requires FiltersByCycle(o, cycle) && events != [] && (events[|events| - 1].Reply? ==> events[|events| - 1].stored)
    requires MaximumOfItsCycle(o, cycle, start, events[..|events| - 1])
    ensures MaximumOfItsCycle(o, cycle, start, events)
  {
    var n := |events| - 1;
    var front, e := events[..n], events[n];
    FilteredStep(o, cycle, Run(o, start, front), e);
    var k := LastChange(o, cycle, start, events);
    if k == Some(n) {
      assert events[n + 1..] == [];
    } else if k.Some? {
      assert events[k.value + 1..][..n - k.value - 1] == front[k.value + 1..];
    }
  }

  /**
   * With the cycle filter, over any run: the saved count is the running maximum over the responses of
   * the stored cycle since that cycle was last stored anew.
   */
  lemma {:induction false} SavedCountIsMaximumOfItsCycle<P(!new)>(
      o: Options<P>, cycle: P -> Option<string>, start: State<P>, events: seq<Event<P>>)
    requires FiltersByCycle(o, cycle) && AllStored(events)
    ensures MaximumOfItsCycle(o, cycle, start, events)
    decreases |events|
  {
    if events == [] {
    } else {
      var front := events[..|events| - 1];
      assert AllStored(front) by {
        assert forall i :: 0 <= i < |front| ==> front[i] == events[i];
      }
      SavedCountIsMaximumOfItsCycle(o, cycle, start, front);
      LoadKeepsMaximumOfItsCycle(o, cycle, start, events);
    }
  }

  /** Exactly when a response stores another cycle: it is worth saving, or not thinner than what is saved. */
  lemma CycleChangesExactly<P(!new)>(o: Options<P>, cycle: P -> Option<string>, s: State<P>, e: Event<P>)
    requires FiltersByCycle(o, cycle) && (e.Reply? ==> e.stored)
    ensures CycleIn(cycle, Next(o, s, e).storage) != CycleIn(cycle, s.storage) <==>
      && e.Reply? && e.payload.Some?
      && CycleIn(cycle, s.storage) != Some(cycle(e.payload.value))
      && (o.count(e.payload.value) >= o.minCount || o.count(e.payload.value) >= CountIn(s.storage))
  {
  }

  /** The saved count can drop only on a response of another cycle than the stored one. */
  lemma DropNeedsAnotherCycle<P(!new)>(o: Options<P>, cycle: P -> Option<string>, s: State<P>, e: Event<P>)
    requires FiltersByCycle(o, cycle)
    requires s.storage.Some?
    ensures
      var after := Next(o, s, e);
      after.storage.Some? &&
      (after.storage.value.count < s.storage.value.count ==>
         e.Reply? && e.payload.Some? && cycle(e.payload.value) != cycle(s.storage.value.payload))
  {
  }

  /** A successful load shows only rows of the response's own cycle. */
  lemma LoadShowsResponseCycle<P(!new)>(o: Options<P>, cycle: P -> Option<string>, s: State<P>, e: Event<P>)
    requires FiltersByCycle(o, cycle)
    requires e.Reply? && e.payload.Some?
    ensures
      var after := Next(o, s, e);
      after.full.Some? && cycle(after.full.value.payload) == cycle(e.payload.value)
  {
  }
}
