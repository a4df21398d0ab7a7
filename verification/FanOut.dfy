/** The bounded fan-out queues of `api/routes/stream.py`. */
module FanOut {
  import opened Sequences
  import opened Wrappers

  const MAX_QUEUE_SIZE := 256

  /**
   * A subscriber's queue, with what its generator has taken, everything broadcast since it
   * registered, and how many of those were dropped.
   */
  datatype QueueState<E> = QueueState(items: seq<E>, received: seq<E>, offered: seq<E>, dropped: nat)

  function Empty<E>(): QueueState<E> {
    QueueState([], [], [], 0)
  }

  /** put_nowait, ignoring QueueFull. */
  function Offer<E>(q: QueueState<E>, e: E): QueueState<E> {
    if |q.items| < MAX_QUEUE_SIZE then q.(items := q.items + [e], offered := q.offered + [e])
    else q.(offered := q.offered + [e], dropped := q.dropped + 1)
  }

  /** get, when there is something to get; otherwise the generator waits. */
  function Take<E>(q: QueueState<E>): QueueState<E> {
    if q.items == [] then q else q.(items := q.items[1..], received := q.received + [q.items[0]])
  }

  class Queue<E> {
    var items: seq<E>
    ghost var received: seq<E>
    ghost var offered: seq<E>
    ghost var dropped: nat

    ghost function View(): QueueState<E>
      reads this
    {
      QueueState(items, received, offered, dropped)
    }

    constructor ()
      ensures View() == Empty()
    {
      items, received, offered, dropped := [], [], [], 0;
    }

    method PutNowait(e: E) returns (full: bool)
      modifies this
      ensures View() == Offer(old(View()), e)
      ensures full == (|old(items)| >= MAX_QUEUE_SIZE)
    {
      full := |items| >= MAX_QUEUE_SIZE;
      offered := offered + [e];
      if full {
        dropped := dropped + 1;
      } else {
        items := items + [e];
      }
    }

    method Get() returns (e: E)
      requires items != []
      modifies this
      ensures View() == Take(old(View()))
      ensures e == old(items)[0]
    {
      e := items[0];
      received := received + [e];
      items := items[1..];
    }
  }

  // ---- The hub ----

  datatype Event<E> = Register(id: nat) | Unregister(id: nat) | Broadcast(event: E) | Consume(id: nat)

  /** All queues ever registered, by number, and those still subscribed. */
  datatype State<E> = State(queues: map<nat, QueueState<E>>, active: set<nat>)

  function Next<E>(s: State<E>, ev: Event<E>): State<E> {
    match ev
    case Register(id) => if id in s.queues then s else State(s.queues[id := Empty()], s.active + {id})
    case Unregister(id) => s.(active := s.active - {id})
    case Broadcast(e) => s.(queues := map id | id in s.queues :: if id in s.active then Offer(s.queues[id], e) else s.queues[id])
    case Consume(id) => if id in s.queues then s.(queues := s.queues[id := Take(s.queues[id])]) else s
  }

  class Hub<E> {
    var subscribers: seq<Queue<E>>
    /** Every queue registered so far, in the order that numbers them. */
    ghost var all: seq<Queue<E>>

    ghost predicate Valid()
      reads this
    {
      && (forall i, j :: 0 <= i < j < |all| ==> all[i] != all[j])
      && (forall i, j :: 0 <= i < j < |subscribers| ==> subscribers[i] != subscribers[j])
      && (forall i :: 0 <= i < |subscribers| ==> subscribers[i] in all)
    }

    ghost function View(): State<E>
      reads this, all
    {
      State(map i: nat | i < |all| :: all[i].View(), set i: nat | i < |all| && all[i] in subscribers)
    }

    constructor ()
      ensures Valid() && subscribers == [] && all == []
      ensures View() == State(map[], {})
    {
      subscribers, all := [], [];
    }

    method Register() returns (q: Queue<E>)
      requires Valid()
      modifies this
      ensures Valid() && fresh(q)
      ensures subscribers == old(subscribers) + [q] && all == old(all) + [q]
      ensures View() == Next(old(View()), Event.Register(|old(all)|))
    {
      ghost var before := View();
      q := new Queue<E>();
      subscribers, all := subscribers + [q], all + [q];
      assert forall i :: 0 <= i < |old(all)| ==> all[i] == old(all)[i] && all[i].View() == before.queues[i];
      assert View().queues == Next(before, Event.Register(|old(all)|)).queues;
    }

    /** Only a subscribed queue leaves; removing it a second time changes nothing. */
    method Unregister(q: Queue<E>)
      requires Valid()
      modifies this`subscribers
      ensures Valid()
      ensures q !in old(subscribers) ==> subscribers == old(subscribers)
      ensures forall i :: 0 <= i < |old(subscribers)| && old(subscribers)[i] == q ==>
        subscribers == old(subscribers)[..i] + old(subscribers)[i + 1..]
      ensures forall id :: 0 <= id < |all| && all[id] == q ==> View() == Next(old(View()), Event.Unregister(id))
    {
      for i := 0 to |subscribers|
        invariant subscribers == old(subscribers)
        invariant q !in subscribers[..i]
      {
        if subscribers[i] == q {
          subscribers := subscribers[..i] + subscribers[i + 1..];
          assert forall p :: p in subscribers <==> p in old(subscribers) && p != q;
          return;
        }
      }
    }

    /** Every subscriber is offered the event once; no other queue changes. */
    method Broadcast(e: E)
      requires Valid()
      modifies set q | q in subscribers
      ensures View() == Next(old(View()), Event.Broadcast(e))
    {
      for i := 0 to |subscribers|
        invariant forall k :: 0 <= k < i ==> subscribers[k].View() == Offer(old(subscribers[k].View()), e)
        invariant forall q :: q in all && q !in subscribers[..i] ==> q.View() == old(q.View())
      {
        var _ := subscribers[i].PutNowait(e);
      }
    }

    /** One turn of a subscriber's generator: the oldest waiting event, or a ping when none comes. */
    method Deliver(q: Queue<E>, ghost id: nat) returns (e: Option<E>)
      requires Valid() && id < |all| && all[id] == q
      modifies q
      ensures View() == Next(old(View()), Event.Consume(id))
      ensures e == if old(q.items) == [] then None else Some(old(q.items)[0])
    {
      if |q.items| == 0 {
        e := None;
      } else {
        var taken := q.Get();
        e := Some(taken);
      }
      assert forall i :: 0 <= i < |all| && i != id ==> all[i].View() == old(all[i].View());
    }
  }

  // ---- Every interleaving ----

  function Run<E>(events: seq<Event<E>>): State<E> {
    if events == [] then State(map[], {}) else Next(Run(events[..|events| - 1]), events[|events| - 1])
  }

  /** What is broadcast from the first registration of a subscriber to its removal. */
  function BroadcastsFor<E>(events: seq<Event<E>>, id: nat): seq<E> {
    if events == [] then []
    else
      var front, ev := events[..|events| - 1], events[|events| - 1];
      if ev.Broadcast? && id in Run(front).active then BroadcastsFor(front, id) + [ev.event] else BroadcastsFor(front, id)
  }

  /** Bounded, in order, and accounted for. */
  ghost predicate Sound<E>(q: QueueState<E>) {
    && |q.items| <= MAX_QUEUE_SIZE
    && Subsequence(q.received + q.items, q.offered)
    && |q.received| + |q.items| + q.dropped == |q.offered|
  }

  lemma OfferKeepsSound<E>(q: QueueState<E>, e: E)
    requires Sound(q)
    ensures Sound(Offer(q, e))
    ensures Offer(q, e).dropped != q.dropped <==> |q.items| == MAX_QUEUE_SIZE
  {
    var kept := q.received + q.items;
    if |q.items| < MAX_QUEUE_SIZE {
      SubsequenceBoth(kept, q.offered, e);
      var next := Offer(q, e);
      assert next.received + next.items == kept + [e];
      assert next.offered == q.offered + [e];
    } else {
      SubsequenceLonger(kept, q.offered, e);
    }
  }

  lemma TakeKeepsSound<E>(q: QueueState<E>)
    requires Sound(q)
    ensures Sound(Take(q))
  {
    if q.items != [] {
      assert (q.received + [q.items[0]]) + q.items[1..] == q.received + q.items;
    }
  }

  /**
   * In every interleaving each queue holds at most 256 events; what its subscriber received, followed
   * by what is queued, is in order a part of what was broadcast while it was subscribed; and
   * received, queued and dropped events add up to that broadcast count.
   */
  lemma {:induction false} EveryQueueIsSound<E>(events: seq<Event<E>>, id: nat)
    ensures id in Run(events).active ==> id in Run(events).queues
    ensures id in Run(events).queues ==> Sound(Run(events).queues[id]) && Run(events).queues[id].offered == BroadcastsFor(events, id)
    ensures id !in Run(events).queues ==> BroadcastsFor(events, id) == []
    decreases |events|
  {
    if events == [] {
    } else {
      var front, ev := events[..|events| - 1], events[|events| - 1];
      EveryQueueIsSound(front, id);
      var s := Run(front);
      if id in s.queues {
        match ev
        case Register(_) =>
        case Unregister(_) =>
        case Broadcast(e) => OfferKeepsSound(s.queues[id], e);
        case Consume(_) => TakeKeepsSound(s.queues[id]);
      }
    }
  }

  /** An event is dropped for a subscriber only by a broadcast that finds its queue full. */
  lemma {:induction false} DropsOnlyWhenFull<E>(events: seq<Event<E>>, ev: Event<E>, id: nat)
    requires id in Run(events).queues
    ensures
      var before, after := Run(events).queues[id], Run(events + [ev]);
      id in after.queues &&
      (after.queues[id].dropped != before.dropped <==> ev.Broadcast? && id in Run(events).active && |before.items| == 256)
  {
    assert (events + [ev])[..|events|] == events;
    EveryQueueIsSound(events, id);
  }

  /**
   * A consumer that finds something waiting receives the oldest event, which leaves the queue; no
   * other queue moves, and neither does its own when nothing waits.
   */
  lemma ConsumerReceivesOldest<E>(events: seq<Event<E>>, id: nat, other: nat)
    requires id in Run(events).queues && other in Run(events).queues
    ensures
      var s, t := Run(events), Run(events + [Consume(id)]);
      && id in t.queues && other in t.queues
      && (other != id || s.queues[id].items == [] ==> t.queues[other] == s.queues[other])
      && (s.queues[id].items != [] ==>
            && [s.queues[id].items[0]] + t.queues[id].items == s.queues[id].items
            && t.queues[id].received == s.queues[id].received + [s.queues[id].items[0]]
            && t.queues[id].offered == s.queues[id].offered && t.queues[id].dropped == s.queues[id].dropped)
  {
    assert (events + [Consume(id)])[..|events|] == events;
  }

  predicate IsRegister<E>(ev: Event<E>, id: nat) {
    ev.Register? && ev.id == id
  }

  predicate IsUnregister<E>(ev: Event<E>, id: nat) {
    ev.Unregister? && ev.id == id
  }

  /** Registered at the i-th event, for the first time, and not removed since. */
  predicate ListensSince<E>(events: seq<Event<E>>, id: nat, i: nat) {
    && i < |events| && IsRegister(events[i], id)
    && (forall j :: 0 <= j < i ==> !IsRegister(events[j], id))
    && (forall j :: i < j < |events| ==> !IsUnregister(events[j], id))
  }

  lemma ListeningStep<E>(front: seq<Event<E>>, ev: Event<E>, id: nat)
    ensures (exists i :: 0 <= i < |front| + 1 && ListensSince(front + [ev], id, i)) <==>
      || (!IsUnregister(ev, id) && exists i :: 0 <= i < |front| && ListensSince(front, id, i))
      || (IsRegister(ev, id) && forall j :: 0 <= j < |front| ==> !IsRegister(front[j], id))
  {
    var events := front + [ev];
    assert forall i :: 0 <= i < |front| ==> events[i] == front[i];
    if i :| 0 <= i < |events| && ListensSince(events, id, i) {
      assert i < |front| ==> ListensSince(front, id, i) && !IsUnregister(events[|front|], id);
    }
    if !IsUnregister(ev, id) {
      if i :| 0 <= i < |front| && ListensSince(front, id, i) {
        assert ListensSince(events, id, i);
      }
    }
    if IsRegister(ev, id) && forall j :: 0 <= j < |front| ==> !IsRegister(front[j], id) {
      assert ListensSince(events, id, |front|);
    }
  }

  /** A subscriber is offered broadcasts exactly from its registration to its removal. */
  lemma {:induction false} ActiveExactly<E>(events: seq<Event<E>>, id: nat)
    ensures id in Run(events).active <==> exists i :: 0 <= i < |events| && ListensSince(events, id, i)
    ensures id in Run(events).queues <==> exists i :: 0 <= i < |events| && IsRegister(events[i], id)
    decreases |events|
  {
    if events == [] {
    } else {
      var front, ev := events[..|events| - 1], events[|events| - 1];
      ActiveExactly(front, id);
      ListeningStep(front, ev, id);
      assert front + [ev] == events;
      assert forall i :: 0 <= i < |front| ==> events[i] == front[i];
      if i :| 0 <= i < |front| && IsRegister(front[i], id) {
        assert IsRegister(events[i], id);
      }
      if i :| 0 <= i < |events| && IsRegister(events[i], id) {
        assert i < |front| ==> IsRegister(front[i], id);
      }
    }
  }

  predicate Concerns<E>(ev: Event<E>, id: nat) {
    ev.Broadcast? || ev.id == id
  }

  /** The run as one subscriber could tell it: broadcasts and its own steps. */
  function OwnView<E>(events: seq<Event<E>>, id: nat): seq<Event<E>> {
    if events == [] then []
    else
      var front, ev := events[..|events| - 1], events[|events| - 1];
      if Concerns(ev, id) then OwnView(front, id) + [ev] else OwnView(front, id)
  }

  /** The two states agree on what one subscriber can see. */
  predicate Agree<E(==)>(s: State<E>, t: State<E>, id: nat) {
    && (id in s.active <==> id in t.active)
    && (id in s.queues <==> id in t.queues)
    && (id in s.queues ==> s.queues[id] == t.queues[id])
  }

  lemma StepsAreLocal<E>(s: State<E>, t: State<E>, ev: Event<E>, id: nat)
    requires Agree(s, t, id)
    ensures Agree(Next(s, ev), if Concerns(ev, id) then Next(t, ev) else t, id)
  {
  }

  /** No subscriber affects another: removing every step of the others leaves its queue as it was. */
  lemma {:induction false} NoInterference<E>(events: seq<Event<E>>, id: nat)
    ensures Agree(Run(events), Run(OwnView(events, id)), id)
    decreases |events|
  {
    if events == [] {
    } else {
      var front, ev := events[..|events| - 1], events[|events| - 1];
      NoInterference(front, id);
      var view := OwnView(front, id);
      assert (view + [ev])[..|view|] == view;
      StepsAreLocal(Run(front), Run(view), ev, id);
    }
  }
}
