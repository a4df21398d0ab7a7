/** The publish handlers and the feed of `api/redis_bridge.py`. */
module Timeline {
  import opened Wrappers
  import opened Sequences
  import opened SortedSet

  const TIMELINE_LIMIT := 1000
  const AGENT_EVENTS_LIMIT := 100
  const SIGNAL_LIMIT := 1000

  /** The bounded lists: each agent's events, and the signal stream. */
  datatype ListKey = AgentEvents(agent: string) | Signals

  function Limit(key: ListKey): nat {
    if key == Signals then SIGNAL_LIMIT else AGENT_EVENTS_LIMIT
  }

  datatype Event = Event(id: Option<string>, timestamp: Option<string>, agentTrace: seq<string>, rest: string)

  /** json.dumps and json.loads on events, and datetime.fromisoformat in microseconds since the epoch. */
  datatype Codec = Codec(dumps: Event -> string, loads: string -> Option<Event>, parse: string -> Option<int>)

  ghost predicate Faithful(c: Codec) {
    forall e :: c.loads(c.dumps(e)) == Some(e)
  }

  /** parse_iso_timestamp: a missing, empty or malformed timestamp scores the current time. */
  function ScoreOf(c: Codec, e: Event, now: int): int {
    if e.timestamp == None || e.timestamp == Some("") then now else c.parse(e.timestamp.value).GetOr(now)
  }

  function Lookup(lists: map<ListKey, seq<string>>, key: ListKey): seq<string> {
    if key in lists then lists[key] else []
  }

  /** The keys of the store this module models. */
  datatype Keys = Keys(timeline: ZSet, lists: map<ListKey, seq<string>>)

  const NO_KEYS := Keys(map[], map[])

  /** One command on those keys. A publish handler awaits each of its commands in turn. */
  datatype Command =
    | ZAdd(event: Event, now: int)
    | ZTrim
    | LPush(key: ListKey, item: string)
    | LTrim(key: ListKey)

  function Next(c: Codec, k: Keys, cmd: Command): Keys {
    match cmd
    case ZAdd(event, now) => k.(timeline := k.timeline[c.dumps(event) := ScoreOf(c, event, now)])
    case ZTrim => k.(timeline := ZRemRangeByRank(k.timeline, 0, -1001))
    case LPush(key, item) => k.(lists := k.lists[key := [item] + Lookup(k.lists, key)])
    case LTrim(key) => if key in k.lists then k.(lists := k.lists[key := Prefix(k.lists[key], Limit(key))]) else k
  }

  function Run(c: Codec, k: Keys, cmds: seq<Command>): Keys {
    if cmds == [] then k else Next(c, Run(c, k, cmds[..|cmds| - 1]), cmds[|cmds| - 1])
  }

  datatype Publish = Publish(event: Event, now: int)

  function ListCommands(agents: seq<string>, item: string): seq<Command> {
    if agents == [] then []
    else
      var key := AgentEvents(agents[|agents| - 1]);
      ListCommands(agents[..|agents| - 1], item) + [LPush(key, item), LTrim(key)]
  }

  /** The commands one publish sends, in order. */
  function HandlerCommands(c: Codec, p: Publish): seq<Command> {
    [ZAdd(p.event, p.now), ZTrim] + ListCommands(p.event.agentTrace, c.dumps(p.event))
  }

  function SignalCommands(payload: string): seq<Command> {
    [LPush(Signals, payload), LTrim(Signals)]
  }

  lemma RunStep(c: Codec, k: Keys, cmds: seq<Command>, cmd: Command)
    ensures Run(c, k, cmds + [cmd]) == Next(c, Run(c, k, cmds), cmd)
  {
    assert (cmds + [cmd])[..|cmds|] == cmds;
  }

  lemma RunPair(c: Codec, k: Keys, cmds: seq<Command>, agents: seq<string>, i: nat, item: string)
    requires i < |agents|
    ensures
      var key := AgentEvents(agents[i]);
      Run(c, k, cmds + ListCommands(agents[..i + 1], item))
      == Next(c, Next(c, Run(c, k, cmds + ListCommands(agents[..i], item)), LPush(key, item)), LTrim(key))
  {
    var sent, key := cmds + ListCommands(agents[..i], item), AgentEvents(agents[i]);
    RunStep(c, k, sent, LPush(key, item));
    RunStep(c, k, sent + [LPush(key, item)], LTrim(key));
    assert agents[..i + 1][..i] == agents[..i];
    assert cmds + ListCommands(agents[..i + 1], item) == sent + [LPush(key, item)] + [LTrim(key)];
  }

  class Redis {
    const codec: Codec
    var timeline: ZSet
    var lists: map<ListKey, seq<string>>

    ghost function View(): Keys
      reads this
    {
      Keys(timeline, lists)
    }

    constructor (codec: Codec)
      ensures this.codec == codec && View() == NO_KEYS
    {
      this.codec := codec;
      timeline, lists := map[], map[];
    }

    method ZAdd(event: Event, now: int)
      modifies this`timeline
      ensures View() == Next(codec, old(View()), Command.ZAdd(event, now))
    {
      var score := if event.timestamp == None || event.timestamp == Some("") then now
                   else codec.parse(event.timestamp.value).GetOr(now);
      timeline := timeline[codec.dumps(event) := score];
    }

    method ZTrim()
      modifies this`timeline
      ensures View() == Next(codec, old(View()), Command.ZTrim)
    {
      timeline := ZRemRangeByRank(timeline, 0, -1001);
    }

    method LPush(key: ListKey, item: string)
      modifies this`lists
      ensures View() == Next(codec, old(View()), Command.LPush(key, item))
    {
      lists := lists[key := [item] + Lookup(lists, key)];
    }

    /** `stop` is the last index kept. */
    method LTrim(key: ListKey, stop: nat)
      requires stop == Limit(key) - 1
      modifies this`lists
      ensures View() == Next(codec, old(View()), Command.LTrim(key))
    {
      if key in lists {
        var list := lists[key];
        lists := lists[key := if |list| > stop + 1 then list[..stop + 1] else list];
      }
    }

    /** Publishes with no other handler between its commands. */
    method PublishEpicon(event: Event, now: int)
      modifies this`timeline, this`lists
      ensures View() == Run(codec, old(View()), HandlerCommands(codec, Publish(event, now)))
    {
      ghost var before := View();
      ZAdd(event, now);
      RunStep(codec, before, [], Command.ZAdd(event, now));
      ZTrim();
      RunStep(codec, before, [Command.ZAdd(event, now)], Command.ZTrim);
      PushAgentEvents(event.agentTrace, codec.dumps(event), before, [Command.ZAdd(event, now), Command.ZTrim]);
    }

    method PushAgentEvents(agents: seq<string>, member: string, ghost before: Keys, ghost cmds: seq<Command>)
      requires View() == Run(codec, before, cmds)
      modifies this`lists
      ensures View() == Run(codec, before, cmds + ListCommands(agents, member))
    {
      assert cmds + ListCommands(agents[..0], member) == cmds;
      for i := 0 to |agents|
        invariant View() == Run(codec, before, cmds + ListCommands(agents[..i], member))
      {
        LPush(AgentEvents(agents[i]), member);
        LTrim(AgentEvents(agents[i]), 99);
        RunPair(codec, before, cmds, agents, i, member);
      }
      assert agents[..|agents|] == agents;
    }

    method PublishSignal(payload: string)
      modifies this`lists
      ensures View() == Run(codec, old(View()), SignalCommands(payload))
    {
      ghost var before := View();
      LPush(Signals, payload);
      RunStep(codec, before, [], Command.LPush(Signals, payload));
      LTrim(Signals, 999);
      RunStep(codec, before, [Command.LPush(Signals, payload)], Command.LTrim(Signals));
    }

    /** Rows that do not decode are skipped, as are events an agent filter leaves out. */
    method GetEpiconFeed(limit: int, agent: Option<string>) returns (items: seq<Event>)
      ensures items == Selected(codec, ZRevRange(timeline, FeedStop(limit)), agent)
    {
      var stop := limit - 1;
      if stop < 0 {
        stop := 0;
      }
      var rows := ZRevRange(timeline, stop);
      items := [];
      for i := 0 to |rows|
        invariant items == Selected(codec, rows[..i], agent)
      {
        assert rows[..i + 1][..i] == rows[..i];
        var event := codec.loads(rows[i]);
        if event == None {
          continue;
        }
        if agent.Some? && agent.value != "" && agent.value !in event.value.agentTrace {
          continue;
        }
        items := items + [event.value];
      }
      assert rows[..|rows|] == rows;
    }
  }

  /** max(0, limit - 1) */
  function FeedStop(limit: int): nat {
    if limit < 1 then 0 else limit - 1
  }

  predicate Wanted(e: Event, agent: Option<string>) {
    agent == None || agent == Some("") || agent.value in e.agentTrace
  }

  function Selected(c: Codec, rows: seq<string>, agent: Option<string>): seq<Event> {
    if rows == [] then []
    else
      var earlier := Selected(c, rows[..|rows| - 1], agent);
      var event := c.loads(rows[|rows| - 1]);
      if event.Some? && Wanted(event.value, agent) then earlier + [event.value] else earlier
  }

  // ---- Every interleaving of commands ----

  /** Each member ever added, with the score it was last given; nothing is trimmed. */
  function Latest(c: Codec, cmds: seq<Command>): ZSet {
    if cmds == [] then map[]
    else
      var earlier, cmd := Latest(c, cmds[..|cmds| - 1]), cmds[|cmds| - 1];
      if cmd.ZAdd? then earlier[c.dumps(cmd.event) := ScoreOf(c, cmd.event, cmd.now)] else earlier
  }

  /** The event has no usable timestamp. */
  predicate ScoredByClock(c: Codec, e: Event) {
    e.timestamp == None || e.timestamp == Some("") || c.parse(e.timestamp.value) == None
  }

  predicate SameClockedEvent(c: Codec, a: Command, b: Command) {
    a.ZAdd? && b.ZAdd? && a.event == b.event && ScoredByClock(c, a.event)
  }

  /**
   * An event without usable timestamp that is added again, in the order the store handles the
   * additions, does not come with an earlier clock reading.
   */
  predicate ClockMonotone(c: Codec, cmds: seq<Command>) {
    forall i, j :: 0 <= i < j < |cmds| && SameClockedEvent(c, cmds[i], cmds[j]) ==> cmds[i].now <= cmds[j].now
  }

  predicate Adds(c: Codec, cmd: Command, m: string, score: int) {
    cmd.ZAdd? && c.dumps(cmd.event) == m && ScoreOf(c, cmd.event, cmd.now) == score
  }

  lemma {:induction false} LatestComesFromHistory(c: Codec, cmds: seq<Command>, m: string)
    requires m in Latest(c, cmds)
    ensures exists k :: 0 <= k < |cmds| && Adds(c, cmds[k], m, Latest(c, cmds)[m])
    decreases |cmds|
  {
    var n := |cmds| - 1;
    if Adds(c, cmds[n], m, Latest(c, cmds)[m]) {
    } else {
      LatestComesFromHistory(c, cmds[..n], m);
      var k :| 0 <= k < n && Adds(c, cmds[..n][k], m, Latest(c, cmds[..n])[m]);
      assert cmds[..n][k] == cmds[k];
    }
  }

  /** The k-th command is the last addition of the event. */
  predicate LastAddition(cmds: seq<Command>, e: Event, k: nat) {
    && k < |cmds| && cmds[k].ZAdd? && cmds[k].event == e
    && forall j :: k < j < |cmds| && cmds[j].ZAdd? ==> cmds[j].event != e
  }

  lemma LastAdditionStays(cmds: seq<Command>, cmd: Command, e: Event, k: nat)
    requires LastAddition(cmds, e, k) && !(cmd.ZAdd? && cmd.event == e)
    ensures LastAddition(cmds + [cmd], e, k)
  {
    assert (cmds + [cmd])[k] == cmds[k];
  }

  /** Every event ever added is on record, and scores by the clock reading of its last addition if it has no timestamp. */
  lemma {:induction false} LatestByLastAddition(c: Codec, cmds: seq<Command>, e: Event) returns (k: nat)
    requires Faithful(c) && exists i :: 0 <= i < |cmds| && cmds[i].ZAdd? && cmds[i].event == e
    ensures LastAddition(cmds, e, k)
    ensures c.dumps(e) in Latest(c, cmds) && Latest(c, cmds)[c.dumps(e)] == ScoreOf(c, e, cmds[k].now)
    decreases |cmds|
  {
    var n := |cmds| - 1;
    var front, cmd := cmds[..n], cmds[n];
    assert front + [cmd] == cmds;
    if cmd.ZAdd? && cmd.event == e {
      k := n;
    } else {
      var i :| 0 <= i < |cmds| && cmds[i].ZAdd? && cmds[i].event == e;
      assert front[i] == cmds[i];
      k := LatestByLastAddition(c, front, e);
      LastAdditionStays(front, cmd, e, k);
      if cmd.ZAdd? {
        assert c.loads(c.dumps(e)) == Some(e) && c.loads(c.dumps(cmd.event)) == Some(cmd.event);
      }
    }
  }

  /** An event scores by its own timestamp if that parses, and otherwise by the clock at its last addition. */
  lemma ScoreMeansTime(c: Codec, cmds: seq<Command>, e: Event)
    requires Faithful(c) && c.dumps(e) in Latest(c, cmds)
    ensures
      var score := Latest(c, cmds)[c.dumps(e)];
      if e.timestamp.Some? && e.timestamp.value != "" && c.parse(e.timestamp.value).Some?
      then score == c.parse(e.timestamp.value).value
      else exists k :: 0 <= k < |cmds| && LastAddition(cmds, e, k) && score == cmds[k].now
  {
    LatestComesFromHistory(c, cmds, c.dumps(e));
    var i :| 0 <= i < |cmds| && Adds(c, cmds[i], c.dumps(e), Latest(c, cmds)[c.dumps(e)]);
    assert c.loads(c.dumps(e)) == Some(e) && c.loads(c.dumps(cmds[i].event)) == Some(cmds[i].event);
    var k := LatestByLastAddition(c, cmds, e);
  }

  /** Adding an event again never lowers its score. */
  lemma RepublishingNeverLowers(c: Codec, cmds: seq<Command>, cmd: Command)
    requires Faithful(c) && ClockMonotone(c, cmds + [cmd]) && cmd.ZAdd?
    ensures
      var m := c.dumps(cmd.event);
      m in Latest(c, cmds) ==> Latest(c, cmds)[m] <= ScoreOf(c, cmd.event, cmd.now)
  {
    var m := c.dumps(cmd.event);
    if m in Latest(c, cmds) {
      LatestComesFromHistory(c, cmds, m);
      var k :| 0 <= k < |cmds| && Adds(c, cmds[k], m, Latest(c, cmds)[m]);
      assert c.loads(c.dumps(cmds[k].event)) == Some(cmds[k].event);
      assert c.loads(c.dumps(cmd.event)) == Some(cmd.event);
      assert (cmds + [cmd])[k] == cmds[k] && (cmds + [cmd])[|cmds|] == cmd;
    }
  }

  /** The stored set holds members at their latest scores, and its 1000 greatest are those of all history. */
  ghost predicate Represents(z: ZSet, latest: ZSet) {
    && (forall m :: m in z ==> m in latest && z[m] == latest[m])
    && Top(z, TIMELINE_LIMIT) == Top(latest, TIMELINE_LIMIT)
  }

  lemma AddKeepsRepresenting(z: ZSet, latest: ZSet, m: string, s: int)
    requires Represents(z, latest)
    requires m in latest ==> latest[m] <= s
    ensures Represents(z[m := s], latest[m := s])
  {
    TrimCommutesWithInsert(z, TIMELINE_LIMIT, m, s);
    TrimCommutesWithInsert(latest, TIMELINE_LIMIT, m, s);
  }

  lemma TrimKeepsRepresenting(z: ZSet, latest: ZSet)
    requires Represents(z, latest)
    ensures Represents(Top(z, TIMELINE_LIMIT), latest)
  {
    TrimIsIdempotent(z, TIMELINE_LIMIT);
  }

  /**
   * However handlers overlap, and at every moment, also between an insertion and its trim, the 1000
   * greatest stored members are exactly the 1000 greatest of everything ever added.
   */
  lemma {:induction false} TimelineRepresentsHistory(c: Codec, cmds: seq<Command>)
    requires Faithful(c) && ClockMonotone(c, cmds)
    ensures Represents(Run(c, NO_KEYS, cmds).timeline, Latest(c, cmds))
    decreases |cmds|
  {
    if cmds == [] {
    } else {
      var front, cmd := cmds[..|cmds| - 1], cmds[|cmds| - 1];
      assert cmds == front + [cmd];
      TimelineRepresentsHistory(c, front);
      var z := Run(c, NO_KEYS, front).timeline;
      match cmd
      case ZAdd(event, now) =>
        RepublishingNeverLowers(c, front, cmd);
        AddKeepsRepresenting(z, Latest(c, front), c.dumps(event), ScoreOf(c, event, now));
      case ZTrim =>
        TrimKeepsTop(z, TIMELINE_LIMIT);
        TrimKeepsRepresenting(z, Latest(c, front));
      case LPush(_, _) =>
      case LTrim(_) =>
    }
  }

  /** The last command on the timeline, if there is one, was a trim. */
  predicate Trimmed(cmds: seq<Command>) {
    cmds == [] || cmds[|cmds| - 1].ZTrim? || (!cmds[|cmds| - 1].ZAdd? && Trimmed(cmds[..|cmds| - 1]))
  }

  /**
   * After any trim the stored timeline is exactly the 1000 greatest members of everything ever
   * added, evicted and republished events included.
   */
  lemma {:induction false} TimelineIsTopOfHistory(c: Codec, cmds: seq<Command>)
    requires Faithful(c) && ClockMonotone(c, cmds) && Trimmed(cmds)
    ensures Run(c, NO_KEYS, cmds).timeline == Top(Latest(c, cmds), TIMELINE_LIMIT)
    decreases |cmds|
  {
    if cmds == [] {
    } else {
      var front, cmd := cmds[..|cmds| - 1], cmds[|cmds| - 1];
      assert cmds == front + [cmd];
      if cmd.ZTrim? {
        TimelineRepresentsHistory(c, front);
        TrimKeepsTop(Run(c, NO_KEYS, front).timeline, TIMELINE_LIMIT);
      } else {
        TimelineIsTopOfHistory(c, front);
      }
    }
  }

  /** Handlers one after the other. */
  function HandlersInTurn(c: Codec, history: seq<Publish>): seq<Command> {
    if history == [] then []
    else HandlersInTurn(c, history[..|history| - 1]) + HandlerCommands(c, history[|history| - 1])
  }

  lemma StaysTrimmed(cmds: seq<Command>, cmd: Command)
    requires Trimmed(cmds) && !cmd.ZAdd?
    ensures Trimmed(cmds + [cmd])
  {
    assert (cmds + [cmd])[..|cmds|] == cmds;
  }

  lemma {:induction false} ListCommandsLeaveTimeline(cmds: seq<Command>, agents: seq<string>, item: string)
    requires Trimmed(cmds)
    ensures Trimmed(cmds + ListCommands(agents, item))
    decreases |agents|
  {
    if agents == [] {
      assert cmds + [] == cmds;
    } else {
      var front, a := agents[..|agents| - 1], AgentEvents(agents[|agents| - 1]);
      ListCommandsLeaveTimeline(cmds, front, item);
      var sent := cmds + ListCommands(front, item);
      StaysTrimmed(sent, LPush(a, item));
      StaysTrimmed(sent + [LPush(a, item)], LTrim(a));
      assert cmds + ListCommands(agents, item) == sent + [LPush(a, item)] + [LTrim(a)];
    }
  }

  /** Whenever no handler is under way, the timeline has been trimmed since the last addition. */
  lemma HandlersInTurnTrim(c: Codec, history: seq<Publish>)
    ensures Trimmed(HandlersInTurn(c, history))
  {
    if history == [] {
    } else {
      var p := history[|history| - 1];
      var earlier := HandlersInTurn(c, history[..|history| - 1]);
      var start := earlier + [ZAdd(p.event, p.now), ZTrim];
      assert start[|start| - 1] == ZTrim;
      ListCommandsLeaveTimeline(start, p.event.agentTrace, c.dumps(p.event));
      assert HandlersInTurn(c, history) == start + ListCommands(p.event.agentTrace, c.dumps(p.event));
    }
  }

  // ---- The feed ----

  lemma {:induction false} DecodedRows(c: Codec, cmds: seq<Command>, rows: seq<string>)
    requires Faithful(c)
    requires forall i :: 0 <= i < |rows| ==> rows[i] in Latest(c, cmds)
    ensures |Selected(c, rows, None)| == |rows|
    ensures forall i :: 0 <= i < |rows| ==> c.dumps(Selected(c, rows, None)[i]) == rows[i]
    decreases |rows|
  {
    if rows == [] {
    } else {
      var n := |rows| - 1;
      DecodedRows(c, cmds, rows[..n]);
      LatestComesFromHistory(c, cmds, rows[n]);
      var k :| 0 <= k < |cmds| && Adds(c, cmds[k], rows[n], Latest(c, cmds)[rows[n]]);
      assert c.loads(rows[n]) == Some(cmds[k].event);
    }
  }

  /** The limit as far as the timeline reaches. */
  function Reach(limit: nat): nat {
    if limit < TIMELINE_LIMIT then limit else TIMELINE_LIMIT
  }

  lemma SameTopSameStart(z: ZSet, latest: ZSet, limit: nat)
    requires Top(z, TIMELINE_LIMIT) == Top(latest, TIMELINE_LIMIT) && limit <= TIMELINE_LIMIT
    ensures Prefix(Descending(z), limit) == Prefix(Descending(latest), limit)
  {
    TopListsPrefix(z, TIMELINE_LIMIT);
    TopListsPrefix(latest, TIMELINE_LIMIT);
    ShorterPrefix(Descending(z), limit, TIMELINE_LIMIT);
    ShorterPrefix(Descending(latest), limit, TIMELINE_LIMIT);
  }

  lemma FeedRows(c: Codec, cmds: seq<Command>, limit: nat)
    requires Faithful(c) && ClockMonotone(c, cmds)
    requires limit <= TIMELINE_LIMIT || Trimmed(cmds)
    ensures Prefix(Descending(Run(c, NO_KEYS, cmds).timeline), limit) == Prefix(Descending(Latest(c, cmds)), Reach(limit))
  {
    if limit <= TIMELINE_LIMIT {
      TimelineRepresentsHistory(c, cmds);
      SameTopSameStart(Run(c, NO_KEYS, cmds).timeline, Latest(c, cmds), limit);
    } else {
      TimelineIsTopOfHistory(c, cmds);
      TopListsPrefix(Latest(c, cmds), TIMELINE_LIMIT);
    }
  }

  lemma RowsAreMembers(z: ZSet, n: nat)
    ensures forall i :: 0 <= i < |Prefix(Descending(z), n)| ==> Prefix(Descending(z), n)[i] in z
  {
    DescendingIsOrdered(z);
    forall i | 0 <= i < |Prefix(Descending(z), n)|
      ensures Prefix(Descending(z), n)[i] in z
    {
      assert Descending(z)[i] in Descending(z);
    }
  }

  /**
   * The unfiltered feed is the start of the ranking of all history: its i-th item is the event whose
   * text is the i-th greatest ever added. For a limit from 1 to 1000 this holds at every moment, for
   * a greater one whenever the timeline is trimmed.
   */
  lemma FeedIsPrefixOfHistory(c: Codec, cmds: seq<Command>, limit: int)
    requires Faithful(c) && ClockMonotone(c, cmds)
    requires 1 <= limit && (limit <= TIMELINE_LIMIT || Trimmed(cmds))
    ensures
      var rows := Prefix(Descending(Latest(c, cmds)), Reach(limit));
      var items := Selected(c, ZRevRange(Run(c, NO_KEYS, cmds).timeline, FeedStop(limit)), None);
      && |items| == |rows|
      && forall i :: 0 <= i < |rows| ==> c.dumps(items[i]) == rows[i]
  {
    FeedRows(c, cmds, limit);
    RowsAreMembers(Latest(c, cmds), Reach(limit));
    DecodedRows(c, cmds, Prefix(Descending(Latest(c, cmds)), Reach(limit)));
  }

  /** The score by which an event of the history ranks, in microseconds since the epoch. */
  ghost function TimeOf(c: Codec, cmds: seq<Command>, e: Event): int
    requires c.dumps(e) in Latest(c, cmds)
  {
    Latest(c, cmds)[c.dumps(e)]
  }

  /**
   * The unfiltered feed lists later events first, and no event of the history that is later than one
   * it lists is missing from it.
   */
  lemma FeedIsNewestFirst(c: Codec, cmds: seq<Command>, limit: int, i: nat)
    requires Faithful(c) && ClockMonotone(c, cmds)
    requires 1 <= limit && (limit <= TIMELINE_LIMIT || Trimmed(cmds))
    requires i < |Selected(c, ZRevRange(Run(c, NO_KEYS, cmds).timeline, FeedStop(limit)), None)|
    ensures
      var items := Selected(c, ZRevRange(Run(c, NO_KEYS, cmds).timeline, FeedStop(limit)), None);
      && c.dumps(items[i]) in Latest(c, cmds)
      && (forall j :: 0 <= j < i ==>
            c.dumps(items[j]) in Latest(c, cmds) && TimeOf(c, cmds, items[j]) >= TimeOf(c, cmds, items[i]))
      && (forall e :: c.dumps(e) in Latest(c, cmds) && TimeOf(c, cmds, e) > TimeOf(c, cmds, items[i]) ==>
            exists j :: 0 <= j < i && items[j] == e)
  {
    var items := Selected(c, ZRevRange(Run(c, NO_KEYS, cmds).timeline, FeedStop(limit)), None);
    var latest, all := Latest(c, cmds), Descending(Latest(c, cmds));
    FeedIsPrefixOfHistory(c, cmds, limit);
    assert forall j :: 0 <= j <= i ==> all[j] == c.dumps(items[j]);
    NoneBetterBehind(latest, i);
    forall e | c.dumps(e) in latest && latest[c.dumps(e)] > latest[all[i]]
      ensures exists j :: 0 <= j < i && items[j] == e
    {
      var j :| 0 <= j < i && all[j] == c.dumps(e);
      SameText(c, e, items[j]);
    }
  }

  lemma SameText(c: Codec, e: Event, f: Event)
    requires Faithful(c) && c.dumps(e) == c.dumps(f)
    ensures e == f
  {
    assert c.loads(c.dumps(e)) == Some(e) && c.loads(c.dumps(f)) == Some(f);
  }

  lemma ScoresNeverRise(z: ZSet)
    ensures forall m :: m in Descending(z) <==> m in z
    ensures forall i :: 0 <= i < |Descending(z)| ==> Descending(z)[i] in z
    ensures forall i, j :: 0 <= i < j < |Descending(z)| ==> z[Descending(z)[i]] >= z[Descending(z)[j]]
  {
    DescendingIsOrdered(z);
    forall i | 0 <= i < |Descending(z)|
      ensures Descending(z)[i] in z
    {
      assert Descending(z)[i] in Descending(z);
    }
    forall i, j | 0 <= i < j < |Descending(z)|
      ensures z[Descending(z)[i]] >= z[Descending(z)[j]]
    {
      ScoresFall(z, i, j);
    }
  }

  /** Before the i-th member of a listing stand only members that score as high, and every member that scores higher. */
  lemma NoneBetterBehind(z: ZSet, i: nat)
    requires i < |Descending(z)|
    ensures
      var all := Descending(z);
      && all[i] in z
      && (forall j :: 0 <= j < i ==> all[j] in z && z[all[j]] >= z[all[i]])
      && (forall m :: m in z && z[m] > z[all[i]] ==> exists j :: 0 <= j < i && all[j] == m)
  {
    var all := Descending(z);
    ScoresNeverRise(z);
    forall m | m in z && z[m] > z[all[i]]
      ensures exists j :: 0 <= j < i && all[j] == m
    {
      assert m in all;
      var j :| 0 <= j < |all| && all[j] == m;
    }
  }

  /** `picked` are the rows that decode and, when an agent is given that is not empty, trace that agent. */
  ghost predicate PicksRows(c: Codec, rows: seq<string>, agent: Option<string>, at: seq<nat>, picked: seq<string>) {
    && Selects(picked, rows, at)
    && forall i: nat :: i in at <==>
         && i < |rows| && c.loads(rows[i]).Some?
         && (agent.Some? && agent.value != "" ==> agent.value in c.loads(rows[i]).value.agentTrace)
  }

  ghost predicate DecodesTo(c: Codec, picked: seq<string>, items: seq<Event>) {
    |picked| == |items| && forall a :: 0 <= a < |picked| ==> c.loads(picked[a]) == Some(items[a])
  }

  predicate Shows(c: Codec, row: string, agent: Option<string>) {
    c.loads(row).Some? && (agent.Some? && agent.value != "" ==> agent.value in c.loads(row).value.agentTrace)
  }

  lemma LastRowSplits(rows: seq<string>)
    requires rows != []
    ensures rows[..|rows| - 1] + [rows[|rows| - 1]] == rows
  {
  }

  lemma NoRowsPicked(c: Codec, agent: Option<string>)
    ensures PicksRows(c, [], agent, [], [])
  {
  }

  lemma PicksNextRow(c: Codec, rows: seq<string>, row: string, agent: Option<string>, at: seq<nat>, picked: seq<string>)
    returns (next: seq<nat>, more: seq<string>)
    requires PicksRows(c, rows, agent, at, picked)
    ensures PicksRows(c, rows + [row], agent, next, more)
    ensures more == if Shows(c, row, agent) then picked + [row] else picked
  {
    next := SelectsStep(picked, rows, row, Shows(c, row, agent), at);
    more := if Shows(c, row, agent) then picked + [row] else picked;
  }

  lemma SelectedStep(c: Codec, rows: seq<string>, row: string, agent: Option<string>, picked: seq<string>)
    requires DecodesTo(c, picked, Selected(c, rows, agent))
    ensures DecodesTo(c, if Shows(c, row, agent) then picked + [row] else picked, Selected(c, rows + [row], agent))
  {
    assert (rows + [row])[..|rows|] == rows;
  }

  /**
   * The filtered feed is, in order, the events of exactly those rows that decode and, when an agent is
   * given that is not empty, trace that agent.
   */
  lemma {:induction false} FilterSelectsExactly(c: Codec, rows: seq<string>, agent: Option<string>)
    returns (at: seq<nat>, picked: seq<string>)
    ensures PicksRows(c, rows, agent, at, picked) && DecodesTo(c, picked, Selected(c, rows, agent))
    decreases |rows|
  {
    if rows == [] {
      NoRowsPicked(c, agent);
      at, picked := [], [];
    } else {
      var front, row := rows[..|rows| - 1], rows[|rows| - 1];
      LastRowSplits(rows);
      var earlier, some := FilterSelectsExactly(c, front, agent);
      SelectedStep(c, front, row, agent, some);
      at, picked := PicksNextRow(c, front, row, agent, earlier, some);
    }
  }

  /** A limit below one still returns the newest event, if there is one. */
  lemma FeedLimitBelowOne(z: ZSet, limit: int)
    requires limit < 1
    ensures |ZRevRange(z, FeedStop(limit))| == if z == map[] then 0 else 1
  {
    DescendingIsComplete(z);
  }

  // ---- Bounded lists ----

  /** Everything ever pushed on a list, newest first. */
  function Pushed(cmds: seq<Command>, key: ListKey): seq<string> {
    if cmds == [] then []
    else
      var earlier, cmd := Pushed(cmds[..|cmds| - 1], key), cmds[|cmds| - 1];
      if cmd.LPush? && cmd.key == key then [cmd.item] + earlier else earlier
  }

  /** The last command on the list, if there is one, was a trim. */
  predicate ListTrimmed(cmds: seq<Command>, key: ListKey) {
    cmds == [] || cmds[|cmds| - 1] == LTrim(key)
    || (!(cmds[|cmds| - 1].LPush? && cmds[|cmds| - 1].key == key) && ListTrimmed(cmds[..|cmds| - 1], key))
  }

  /**
   * However handlers overlap, the first items of a list, up to its limit, are at every moment the
   * newest of everything ever pushed on it, and after its trim the list holds no others.
   */
  lemma {:induction false} ListsAreNewest(c: Codec, cmds: seq<Command>, key: ListKey)
    ensures
      var list, all := Lookup(Run(c, NO_KEYS, cmds).lists, key), Pushed(cmds, key);
      var limit := if key == Signals then 1000 else 100;
      && Prefix(list, limit) == Prefix(all, limit)
      && (ListTrimmed(cmds, key) ==> list == Prefix(all, limit))
    decreases |cmds|
  {
    if cmds == [] {
    } else {
      var front, cmd := cmds[..|cmds| - 1], cmds[|cmds| - 1];
      ListsAreNewest(c, front, key);
      var list, all := Lookup(Run(c, NO_KEYS, front).lists, key), Pushed(front, key);
      if cmd.LPush? && cmd.key == key {
        PrefixOfPrefix([cmd.item], list, Limit(key));
        PrefixOfPrefix([cmd.item], all, Limit(key));
      }
    }
  }
  /** Read from their end, the items are those of the pushes on this list. */
  ghost predicate Backwards(pushes: seq<Command>, key: ListKey, items: seq<string>) {
    && |items| == |pushes|
    && forall a :: 0 <= a < |pushes| ==> pushes[a] == LPush(key, items[|items| - 1 - a])
  }

  lemma BackwardsStep(pushes: seq<Command>, key: ListKey, items: seq<string>, item: string)
    requires Backwards(pushes, key, items)
    ensures Backwards(pushes + [LPush(key, item)], key, [item] + items)
  {
  }

  /** `at` are the places of the pushes on this list, and `items`, read from its end, what they push. */
  ghost predicate PushesAt(cmds: seq<Command>, key: ListKey, items: seq<string>, at: seq<nat>, pushes: seq<Command>) {
    && Selects(pushes, cmds, at)
    && (forall i: nat :: i in at <==> i < |cmds| && cmds[i].LPush? && cmds[i].key == key)
    && Backwards(pushes, key, items)
  }

  lemma PushesAtStep(front: seq<Command>, cmd: Command, key: ListKey, items: seq<string>, earlier: seq<nat>, some: seq<Command>)
    returns (at: seq<nat>, pushes: seq<Command>)
    requires PushesAt(front, key, items, earlier, some)
    ensures PushesAt(front + [cmd], key, if cmd.LPush? && cmd.key == key then [cmd.item] + items else items, at, pushes)
  {
    var keep := cmd.LPush? && cmd.key == key;
    at := SelectsStep(some, front, cmd, keep, earlier);
    pushes := if keep then some + [cmd] else some;
    if keep {
      BackwardsStep(some, key, items, cmd.item);
    }
  }

  /** What was pushed is, read from its end, the items of exactly the pushes on that list in their order. */
  lemma {:induction false} PushedInOrder(cmds: seq<Command>, key: ListKey) returns (at: seq<nat>, pushes: seq<Command>)
    ensures PushesAt(cmds, key, Pushed(cmds, key), at, pushes)
    decreases |cmds|
  {
    if cmds == [] {
      at, pushes := [], [];
    } else {
      var front, cmd := cmds[..|cmds| - 1], cmds[|cmds| - 1];
      var earlier, some := PushedInOrder(front, key);
      at, pushes := PushesAtStep(front, cmd, key, Pushed(front, key), earlier, some);
      assert front + [cmd] == cmds;
    }
  }

  // ---- What one publish leaves ----

  /** The list has the item first and nothing beyond its limit. */
  predicate StartsWith(list: seq<string>, item: string, limit: nat) {
    list != [] && list[0] == item && |list| <= limit
  }

  /** Every traced agent's list starts with the item, and nothing else has changed. */
  predicate Reached(before: Keys, after: Keys, agents: seq<string>, item: string, key: ListKey) {
    && after.timeline == before.timeline
    && (if key.AgentEvents? && key.agent in agents then StartsWith(Lookup(after.lists, key), item, 100)
        else Lookup(after.lists, key) == Lookup(before.lists, key))
  }

  lemma ReachedStep(c: Codec, before: Keys, after: Keys, agents: seq<string>, agent: string, item: string, key: ListKey)
    requires Reached(before, after, agents, item, key)
    ensures Reached(before, Next(c, Next(c, after, LPush(AgentEvents(agent), item)), LTrim(AgentEvents(agent))), agents + [agent], item, key)
  {
  }

  lemma LastAgentGetsItem(c: Codec, k: Keys, agents: seq<string>, item: string)
    requires agents != []
    ensures
      var front, key := agents[..|agents| - 1], AgentEvents(agents[|agents| - 1]);
      Run(c, k, ListCommands(agents, item)) == Next(c, Next(c, Run(c, k, ListCommands(front, item)), LPush(key, item)), LTrim(key))
  {
    var n, none := |agents| - 1, [];
    RunPair(c, k, none, agents, n, item);
    assert agents[..n + 1] == agents;
    assert none + ListCommands(agents, item) == ListCommands(agents, item);
    assert none + ListCommands(agents[..n], item) == ListCommands(agents[..n], item);
  }

  lemma {:induction false} AgentsGetItem(c: Codec, k: Keys, agents: seq<string>, item: string, key: ListKey)
    ensures Reached(k, Run(c, k, ListCommands(agents, item)), agents, item, key)
    decreases |agents|
  {
    if agents == [] {
    } else {
      var front, agent := agents[..|agents| - 1], agents[|agents| - 1];
      AgentsGetItem(c, k, front, item, key);
      LastAgentGetsItem(c, k, agents, item);
      ReachedStep(c, k, Run(c, k, ListCommands(front, item)), front, agent, item, key);
      assert front + [agent] == agents;
    }
  }

  lemma {:induction false} RunConcat(c: Codec, k: Keys, cmds: seq<Command>, more: seq<Command>)
    ensures Run(c, k, cmds + more) == Run(c, Run(c, k, cmds), more)
    decreases |more|
  {
    if more == [] {
      assert cmds + more == cmds;
    } else {
      var n := |more| - 1;
      RunConcat(c, k, cmds, more[..n]);
      assert (cmds + more)[..|cmds + more| - 1] == cmds + more[..n];
    }
  }

  /**
   * A publish that meets no other leaves the 1000 greatest of the timeline with the event in it, the
   * event first in the list of every agent it traces, and every other list as it was.
   */
  lemma PublishReaches(c: Codec, k: Keys, p: Publish, key: ListKey)
    ensures
      var after, item := Run(c, k, HandlerCommands(c, p)), c.dumps(p.event);
      && after.timeline == Top(k.timeline[item := ScoreOf(c, p.event, p.now)], 1000)
      && (key.AgentEvents? && key.agent in p.event.agentTrace ==> StartsWith(Lookup(after.lists, key), item, 100))
      && (!(key.AgentEvents? && key.agent in p.event.agentTrace) ==> Lookup(after.lists, key) == Lookup(k.lists, key))
  {
    var item := c.dumps(p.event);
    var add, added := ZAdd(p.event, p.now), Next(c, k, ZAdd(p.event, p.now));
    RunStep(c, k, [], add);
    RunStep(c, k, [add], ZTrim);
    assert [] + [add] == [add] && [add] + [ZTrim] == [add, ZTrim];
    TrimKeepsTop(added.timeline, 1000);
    assert Run(c, k, [add, ZTrim]).timeline == ZRemRangeByRank(added.timeline, 0, -1001);
    RunConcat(c, k, [add, ZTrim], ListCommands(p.event.agentTrace, item));
    AgentsGetItem(c, Run(c, k, [add, ZTrim]), p.event.agentTrace, item, key);
  }

  /** A signal that meets no other stands first in the stream of at most 1000, and changes nothing else. */
  lemma SignalReaches(c: Codec, k: Keys, payload: string, key: ListKey)
    ensures
      var after := Run(c, k, SignalCommands(payload));
      && after.timeline == k.timeline
      && Lookup(after.lists, Signals) == Prefix([payload] + Lookup(k.lists, Signals), 1000)
      && (key != Signals ==> Lookup(after.lists, key) == Lookup(k.lists, key))
  {
    RunStep(c, k, [], LPush(Signals, payload));
    RunStep(c, k, [LPush(Signals, payload)], LTrim(Signals));
    assert [LPush(Signals, payload)] + [LTrim(Signals)] == SignalCommands(payload);
  }
}
