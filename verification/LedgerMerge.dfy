/** The prioritised ledger merge and the EPICON list updates of `hooks/useTerminalData.ts`. */
module LedgerMerge {
  import opened Sequences

  datatype Row = Row(id: string, body: string)

  /** The first row of each id, in order. */
  function FirstOfEach(rows: seq<Row>): seq<Row> {
    if rows == [] then []
    else
      var earlier, last := FirstOfEach(rows[..|rows| - 1]), rows[|rows| - 1];
      if last.id in Ids(rows[..|rows| - 1]) then earlier else earlier + [last]
  }

  function Ids(rows: seq<Row>): set<string> {
    set i | 0 <= i < |rows| :: rows[i].id
  }

  method PushUnique(rows: seq<Row>, seen: set<string>, out: seq<Row>, ghost all: seq<Row>) returns (newSeen: set<string>, newOut: seq<Row>)
    requires seen == Ids(all) && out == FirstOfEach(all)
    ensures newSeen == Ids(all + rows) && newOut == FirstOfEach(all + rows)
  {
    newSeen, newOut := seen, out;
    assert all + rows[..0] == all;
    for i := 0 to |rows|
      invariant newSeen == Ids(all + rows[..i]) && newOut == FirstOfEach(all + rows[..i])
    {
      MergeStep(all + rows[..i], rows[i]);
      assert all + rows[..i] + [rows[i]] == all + rows[..i + 1];
      if rows[i].id in newSeen {
        continue;
      }
      newSeen := newSeen + {rows[i].id};
      newOut := newOut + [rows[i]];
    }
    assert rows[..|rows|] == rows;
  }

  lemma MergeStep(rows: seq<Row>, row: Row)
    ensures
      if row.id in Ids(rows) then Ids(rows + [row]) == Ids(rows) && FirstOfEach(rows + [row]) == FirstOfEach(rows)
      else Ids(rows + [row]) == Ids(rows) + {row.id} && FirstOfEach(rows + [row]) == FirstOfEach(rows) + [row]
  {
    IdsStep(rows, row);
    assert (rows + [row])[..|rows|] == rows;
  }

  lemma IdsStep(rows: seq<Row>, row: Row)
    ensures Ids(rows + [row]) == Ids(rows) + {row.id}
  {
    var longer := rows + [row];
    assert longer[|rows|].id in Ids(longer);
    assert forall i :: 0 <= i < |rows| ==> longer[i].id in Ids(longer) && longer[i] == rows[i];
  }

  method MergeLedger(feed: seq<Row>, echo: seq<Row>, backfill: seq<Row>, mock: seq<Row>) returns (out: seq<Row>)
    ensures out == FirstOfEach(feed + echo + backfill + mock)
  {
    var seen: set<string> := {};
    out := [];
    seen, out := PushUnique(feed, seen, out, []);
    assert [] + feed == feed;
    seen, out := PushUnique(echo, seen, out, feed);
    seen, out := PushUnique(backfill, seen, out, feed + echo);
    seen, out := PushUnique(mock, seen, out, feed + echo + backfill);
  }

  /** The place where an id first occurs. */
  function FirstIndex(rows: seq<Row>, id: string): (i: nat)
    requires id in Ids(rows)
    ensures i < |rows| && rows[i].id == id
    ensures forall j :: 0 <= j < i ==> rows[j].id != id
  {
    if rows[0].id == id then 0 else
      assert id in Ids(rows[1..]) by {
        var i :| 0 <= i < |rows| && rows[i].id == id;
        assert rows[1..][i - 1].id == id;
      }
      1 + FirstIndex(rows[1..], id)
  }

  /** Each merged row is the first of its id, at the place `at[a]` of the input, and places ascend. */
  ghost predicate ListsFirsts(rows: seq<Row>, out: seq<Row>, at: seq<nat>) {
    && |at| == |out|
    && (forall a :: 0 <= a < |at| ==> at[a] < |rows| && out[a] == rows[at[a]] && IsFirst(rows, at[a]))
    && (forall a, b :: 0 <= a < b < |at| ==> at[a] < at[b])
    && (forall i :: 0 <= i < |rows| && IsFirst(rows, i) ==> i in at)
  }

  predicate IsFirst(rows: seq<Row>, i: nat)
    requires i < |rows|
  {
    forall j :: 0 <= j < i ==> rows[j].id != rows[i].id
  }

  lemma FirstsUnaffected(front: seq<Row>, row: Row)
    ensures forall i :: 0 <= i < |front| ==> (IsFirst(front, i) <==> IsFirst(front + [row], i))
    ensures row.id in Ids(front) <==> !IsFirst(front + [row], |front|)
  {
    var rows := front + [row];
    assert forall i :: 0 <= i < |front| ==> rows[i] == front[i];
  }

  lemma FirstsStep(front: seq<Row>, row: Row, out: seq<Row>, at: seq<nat>)
    requires ListsFirsts(front, out, at)
    ensures
      if row.id in Ids(front) then ListsFirsts(front + [row], out, at)
      else ListsFirsts(front + [row], out + [row], at + [|front|])
  {
    var rows := front + [row];
    FirstsUnaffected(front, row);
    assert forall i :: 0 <= i < |front| ==> rows[i] == front[i];
    if row.id !in Ids(front) {
      var longer := at + [|front|];
      forall i | 0 <= i < |rows| && IsFirst(rows, i)
        ensures i in longer
      {
        if i < |front| {
          assert i in at;
        } else {
          assert longer[|at|] == i;
        }
      }
    }
  }

  /** The merge lists exactly the first row of every id, once each, in input order. */
  lemma {:induction false} MergeListsFirsts(rows: seq<Row>)
    ensures exists at: seq<nat> :: ListsFirsts(rows, FirstOfEach(rows), at)
    decreases |rows|
  {
    if rows == [] {
      var none: seq<nat> := [];
      assert ListsFirsts(rows, FirstOfEach(rows), none);
    } else {
      var front, row := rows[..|rows| - 1], rows[|rows| - 1];
      MergeListsFirsts(front);
      var at: seq<nat> :| ListsFirsts(front, FirstOfEach(front), at);
      FirstsStep(front, row, FirstOfEach(front), at);
      assert front + [row] == rows;
      var all := if row.id in Ids(front) then at else at + [|front|];
      assert ListsFirsts(rows, FirstOfEach(rows), all);
    }
  }

  /** A higher source decides: the merged row of an id it holds is its own first row of that id. */
  lemma HigherSourceWins(higher: seq<Row>, lower: seq<Row>, row: Row)
    requires row in FirstOfEach(higher + lower) && row.id in Ids(higher)
    ensures row == higher[FirstIndex(higher, row.id)]
  {
    var all := higher + lower;
    MergeListsFirsts(all);
    var at: seq<nat> :| ListsFirsts(all, FirstOfEach(all), at);
    var a :| 0 <= a < |at| && FirstOfEach(all)[a] == row;
    var i := FirstIndex(higher, row.id);
    assert all[i] == higher[i];
    SameFirst(all, at[a], i);
  }

  lemma SameFirst(rows: seq<Row>, i: nat, j: nat)
    requires i < |rows| && j < |rows| && rows[i].id == rows[j].id
    requires IsFirst(rows, i) && forall k :: 0 <= k < j ==> rows[k].id != rows[j].id
    ensures i == j
  {
  }

  // ---- The EPICON list ----

  const STREAM_LIMIT := 20
  const ECHO_LIMIT := 30

  /** Items with their ids; the fields shown are in `body`. */
  type Item = Row

  function Without(items: seq<Item>, ids: set<string>): seq<Item> {
    if items == [] then []
    else if items[0].id in ids then Without(items[1..], ids)
    else [items[0]] + Without(items[1..], ids)
  }

  /** A stream message puts its item first and drops the older item of that id. */
  function OnStream(prev: seq<Item>, item: Item): seq<Item> {
    Prefix([item] + Without(prev, {item.id}), STREAM_LIMIT)
  }

  /** An ECHO feed goes first, if it is not empty, and replaces older items of its ids. */
  function OnEcho(prev: seq<Item>, feed: seq<Item>): seq<Item> {
    if feed == [] then prev else Prefix(feed + Without(prev, Ids(feed)), ECHO_LIMIT)
  }

  predicate DistinctIds(items: seq<Item>) {
    forall i, j :: 0 <= i < j < |items| ==> items[i].id != items[j].id
  }

  lemma {:induction false} WithoutKeepsOthers(items: seq<Item>, ids: set<string>)
    ensures forall x :: x in Without(items, ids) <==> x in items && x.id !in ids
    ensures DistinctIds(items) ==> DistinctIds(Without(items, ids))
    decreases |items|
  {
    if items == [] {
    } else {
      WithoutKeepsOthers(items[1..], ids);
      assert forall x :: x in items <==> x == items[0] || x in items[1..];
      var rest := Without(items[1..], ids);
      if DistinctIds(items) {
        forall x | x in rest
          ensures x.id != items[0].id
        {
          assert x in items[1..];
        }
        assert forall i :: 0 <= i < |rest| ==> rest[i] in rest;
      }
    }
  }

  /** Dropping ids keeps exactly the other items, in their order. */
  lemma {:induction false} WithoutSelects(items: seq<Item>, ids: set<string>) returns (at: seq<nat>)
    ensures Selects(Without(items, ids), items, at)
    ensures forall i: nat :: i in at <==> i < |items| && items[i].id !in ids
    decreases |items|
  {
    if items == [] {
      at := [];
    } else {
      var first, rest := items[0], items[1..];
      var later := WithoutSelects(rest, ids);
      at := SelectsInFront(first, Without(rest, ids), rest, first.id !in ids, later);
      assert [first] + rest == items;
      forall i: nat
        ensures i in at <==> i < |items| && items[i].id !in ids
      {
        assert i > 0 ==> (i - 1 in later <==> i - 1 < |rest| && rest[i - 1].id !in ids);
      }
    }
  }

  lemma IdsOfOne(item: Item)
    ensures Ids([item]) == {item.id}
  {
    assert [item][0].id in Ids([item]);
  }

  lemma FeedFirstIsDistinct(prev: seq<Item>, feed: seq<Item>)
    requires DistinctIds(prev) && DistinctIds(feed)
    ensures DistinctIds(feed + Without(prev, Ids(feed)))
  {
    var rest := Without(prev, Ids(feed));
    WithoutKeepsOthers(prev, Ids(feed));
    forall i, j | 0 <= i < |feed| && 0 <= j < |rest|
      ensures feed[i].id != rest[j].id
    {
      assert rest[j] in rest;
      assert feed[i].id in Ids(feed);
    }
  }

  /** A stream message keeps ids distinct and the list bounded, and stands first. */
  lemma StreamKeepsDistinctIds(prev: seq<Item>, item: Item)
    requires DistinctIds(prev)
    ensures DistinctIds(OnStream(prev, item)) && 0 < |OnStream(prev, item)| <= 20 && OnStream(prev, item)[0] == item
  {
    IdsOfOne(item);
    FeedFirstIsDistinct(prev, [item]);
  }

  /** So does an ECHO feed, whose items stand first. */
  lemma EchoKeepsDistinctIds(prev: seq<Item>, feed: seq<Item>)
    requires DistinctIds(prev) && DistinctIds(feed)
    ensures DistinctIds(OnEcho(prev, feed))
    ensures feed != [] ==> |OnEcho(prev, feed)| <= 30 && Prefix(OnEcho(prev, feed), |feed|) == Prefix(feed, 30)
  {
    FeedFirstIsDistinct(prev, feed);
  }

  /** A promotion status rewrites fields of the items in place. */
  function Revised(items: seq<Item>, body: Item -> string): (r: seq<Item>)
    ensures |r| == |items| && forall i :: 0 <= i < |items| ==> r[i] == Row(items[i].id, body(items[i]))
  {
    seq(|items|, i requires 0 <= i < |items| => Row(items[i].id, body(items[i])))
  }

  /** What updates the list: a stream message, an ECHO feed, or the promotion status that comes with one. */
  datatype Update = Stream(item: Item) | Echo(feed: seq<Item>) | Promotion(body: Item -> string)

  function Shown(prev: seq<Item>, u: Update): seq<Item> {
    match u
    case Stream(item) => OnStream(prev, item)
    case Echo(feed) => OnEcho(prev, feed)
    case Promotion(body) => Revised(prev, body)
  }

  /** The same update of a list that is never cut off. */
  function Touched(all: seq<Item>, u: Update): seq<Item> {
    match u
    case Stream(item) => [item] + Without(all, {item.id})
    case Echo(feed) => feed + Without(all, Ids(feed))
    case Promotion(body) => Revised(all, body)
  }

  function ListRun(start: seq<Item>, updates: seq<Update>): seq<Item> {
    if |updates| == 0 then start else Shown(ListRun(start, updates[..|updates| - 1]), updates[|updates| - 1])
  }

  /** Every item ever received, most recently touched first. */
  function Recency(start: seq<Item>, updates: seq<Update>): seq<Item> {
    if |updates| == 0 then start else Touched(Recency(start, updates[..|updates| - 1]), updates[|updates| - 1])
  }

  lemma WithoutUnfolds(first: Item, rest: seq<Item>, ids: set<string>)
    ensures Without([first] + rest, ids) == if first.id in ids then Without(rest, ids) else [first] + Without(rest, ids)
  {
    assert ([first] + rest)[1..] == rest;
  }

  lemma {:induction false} WithoutNothing(items: seq<Item>)
    ensures Without(items, {}) == items
    decreases |items|
  {
    if items == [] {
    } else {
      WithoutNothing(items[1..]);
      assert items == [items[0]] + items[1..];
    }
  }

  lemma EmptyFeedTouchesNothing(all: seq<Item>)
    ensures Touched(all, Echo([])) == all
  {
    var none: seq<Item> := [];
    assert Ids(none) == {};
    WithoutNothing(all);
    assert none + all == all;
  }

  lemma {:induction false} WithoutOfPrefix(part: seq<Item>, whole: seq<Item>, ids: set<string>)
    requires part <= whole
    ensures Without(part, ids) <= Without(whole, ids)
    decreases |part|
  {
    if part == [] {
    } else {
      WithoutOfPrefix(part[1..], whole[1..], ids);
    }
  }

  lemma PrefixesJoin(front: seq<Item>, a: seq<Item>, b: seq<Item>, n: nat)
    requires a <= b
    ensures Prefix(front + a, n) <= front + b
  {
  }

  lemma UpdateKeepsPrefix(list: seq<Item>, all: seq<Item>, u: Update)
    requires list <= all
    ensures Shown(list, u) <= Touched(all, u)
  {
    match u
    case Stream(item) =>
      WithoutOfPrefix(list, all, {item.id});
      PrefixesJoin([item], Without(list, {item.id}), Without(all, {item.id}), STREAM_LIMIT);
    case Echo(feed) =>
      WithoutOfPrefix(list, all, Ids(feed));
      PrefixesJoin(feed, Without(list, Ids(feed)), Without(all, Ids(feed)), ECHO_LIMIT);
      if feed == [] {
        EmptyFeedTouchesNothing(all);
      }
    case Promotion(body) =>
  }

  /** Over any updates, the list is the start of all items ever received, most recently touched first. */
  lemma {:induction false} ListIsStartOfRecency(start: seq<Item>, updates: seq<Update>)
    ensures ListRun(start, updates) <= Recency(start, updates)
    decreases |updates|
  {
    if |updates| == 0 {
    } else {
      ListIsStartOfRecency(start, updates[..|updates| - 1]);
      UpdateKeepsPrefix(ListRun(start, updates[..|updates| - 1]), Recency(start, updates[..|updates| - 1]), updates[|updates| - 1]);
    }
  }

  lemma {:induction false} WithoutSame(items: seq<Item>, a: set<string>, b: set<string>)
    requires forall i :: 0 <= i < |items| ==> (items[i].id in a <==> items[i].id in b)
    ensures Without(items, a) == Without(items, b)
    decreases |items|
  {
    if items == [] {
    } else {
      assert forall i :: 0 <= i < |items| - 1 ==> items[1..][i] == items[i + 1];
      WithoutSame(items[1..], a, b);
    }
  }

  /** From distinct items, at most one goes for each id. */
  lemma {:induction false} WithoutDropsFew(items: seq<Item>, ids: set<string>)
    requires DistinctIds(items)
    ensures |Without(items, ids)| >= |items| - |ids|
    decreases |items|
  {
    if items == [] {
    } else {
      var first, rest := items[0], items[1..];
      assert forall i :: 0 <= i < |rest| ==> rest[i] == items[i + 1];
      if first.id in ids {
        WithoutDropsFew(rest, ids - {first.id});
        WithoutSame(rest, ids, ids - {first.id});
      } else {
        WithoutDropsFew(rest, ids);
      }
    }
  }

  lemma {:induction false} FewIds(feed: seq<Item>)
    ensures |Ids(feed)| <= |feed|
    decreases |feed|
  {
    if feed == [] {
      assert Ids(feed) == {};
    } else {
      var front, last := feed[..|feed| - 1], feed[|feed| - 1];
      FewIds(front);
      assert Ids(feed) == Ids(front) + {last.id};
    }
  }

  /** No feed names an id twice. */
  predicate DistinctFeeds(updates: seq<Update>) {
    forall k :: 0 <= k < |updates| && updates[k].Echo? ==> DistinctIds(updates[k].feed)
  }

  /** The list is the start of all items, and no shorter than the limit of a stream message allows. */
  ghost predicate Recent(list: seq<Item>, all: seq<Item>) {
    && DistinctIds(all) && list <= all
    && (|list| < STREAM_LIMIT ==> list == all)
  }

  lemma TouchedStaysDistinct(all: seq<Item>, u: Update)
    requires DistinctIds(all) && (u.Echo? ==> DistinctIds(u.feed))
    ensures DistinctIds(Touched(all, u))
  {
    match u
    case Stream(item) =>
      IdsOfOne(item);
      FeedFirstIsDistinct(all, [item]);
    case Echo(feed) => FeedFirstIsDistinct(all, feed);
    case Promotion(body) =>
  }

  lemma UpdateKeepsRecent(list: seq<Item>, all: seq<Item>, u: Update)
    requires Recent(list, all) && (u.Echo? ==> DistinctIds(u.feed))
    ensures Recent(Shown(list, u), Touched(all, u))
    ensures u.Stream? ==> Shown(list, u) == Prefix(Touched(all, u), STREAM_LIMIT)
  {
    UpdateKeepsPrefix(list, all, u);
    TouchedStaysDistinct(all, u);
    match u
    case Stream(item) => WithoutDropsFew(list, {item.id});
    case Echo(feed) =>
      FewIds(feed);
      WithoutDropsFew(list, Ids(feed));
      if feed == [] {
        EmptyFeedTouchesNothing(all);
      }
    case Promotion(body) =>
  }

  /**
   * Cutting the list at every update loses nothing that the next ones show: while feeds name each id
   * once, the first 20 items are at every moment the 20 most recently touched of all history, and
   * right after a stream message the list is those 20.
   */
  lemma {:induction false} ListIsMostRecent(start: seq<Item>, updates: seq<Update>)
    requires DistinctIds(start) && DistinctFeeds(updates)
    ensures Recent(ListRun(start, updates), Recency(start, updates))
    ensures Prefix(ListRun(start, updates), 20) == Prefix(Recency(start, updates), 20)
    ensures |updates| > 0 && updates[|updates| - 1].Stream? ==>
      ListRun(start, updates) == Prefix(Recency(start, updates), 20)
    decreases |updates|
  {
    if |updates| == 0 {
    } else {
      var front, u := updates[..|updates| - 1], updates[|updates| - 1];
      ListIsMostRecent(start, front);
      UpdateKeepsRecent(ListRun(start, front), Recency(start, front), u);
    }
  }
}
