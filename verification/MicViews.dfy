/** The readers of a chain in `hooks/useMICBlockchain.ts`: totals, balances, transactions, holders. */
module MicViews {
  import opened MicBlock
  import opened Sequences

  const SYSTEM := "mobius-system"

  /** A transaction together with the block it stands in. */
  datatype Entry = Entry(tx: Tx, blockIndex: int, blockHash: string, timestamp: string)

  function EntriesOf(b: Block): (es: seq<Entry>)
    ensures |es| == |b.header.transactions|
  {
    seq(|b.header.transactions|, i requires 0 <= i < |b.header.transactions| =>
      Entry(b.header.transactions[i], b.header.index, b.hash, b.header.timestamp))
  }

  /** Every transaction of the chain, in order. */
  function Flat(chain: seq<Block>): seq<Entry> {
    if chain == [] then [] else Flat(chain[..|chain| - 1]) + EntriesOf(chain[|chain| - 1])
  }

  /** What is added up: amounts, or one per transaction. */
  datatype Measure = Amount | Count

  function Weight(m: Measure, e: Entry): int {
    match m
    case Amount => e.tx.amount
    case Count => 1
  }

  function Total(m: Measure, es: seq<Entry>): int {
    if es == [] then 0 else Total(m, es[..|es| - 1]) + Weight(m, es[|es| - 1])
  }

  function For(es: seq<Entry>, recipient: string): seq<Entry> {
    if es == [] then []
    else
      var last := es[|es| - 1];
      if last.tx.recipient == recipient then For(es[..|es| - 1], recipient) + [last] else For(es[..|es| - 1], recipient)
  }

  function BalanceOf(chain: seq<Block>, recipient: string): int {
    Total(Amount, For(Flat(chain), recipient))
  }

  /** Math.round(x * 100) / 100 on micro-MIC: to the nearest cent, halves upward. */
  function RoundCents(micro: int): (r: int)
    ensures micro - 5_000 < r <= micro + 5_000
    ensures r % 10_000 == 0
  {
    (micro + 5_000) / 10_000 * 10_000
  }

  // ---- Steps over appended entries ----

  lemma FlatStep(chain: seq<Block>, i: nat)
    requires i < |chain|
    ensures Flat(chain[..i + 1]) == Flat(chain[..i]) + EntriesOf(chain[i])
  {
    assert chain[..i + 1][..i] == chain[..i];
  }

  lemma TotalStep(m: Measure, es: seq<Entry>, e: Entry)
    ensures Total(m, es + [e]) == Total(m, es) + Weight(m, e)
  {
    assert (es + [e])[..|es|] == es;
  }

  lemma ForStep(es: seq<Entry>, e: Entry, recipient: string)
    ensures For(es + [e], recipient) == if e.tx.recipient == recipient then For(es, recipient) + [e] else For(es, recipient)
  {
    assert (es + [e])[..|es|] == es;
  }

  /** What the nested loops have visited: i whole blocks and j transactions of the next one. */
  function Visited(chain: seq<Block>, i: nat, j: nat): seq<Entry>
    requires i < |chain| && j <= |chain[i].header.transactions|
  {
    Flat(chain[..i]) + EntriesOf(chain[i])[..j]
  }

  function EntryAt(chain: seq<Block>, i: nat, j: nat): Entry
    requires i < |chain| && j < |chain[i].header.transactions|
  {
    Entry(chain[i].header.transactions[j], chain[i].header.index, chain[i].hash, chain[i].header.timestamp)
  }

  lemma VisitNext(chain: seq<Block>, i: nat, j: nat)
    requires i < |chain| && j < |chain[i].header.transactions|
    ensures Visited(chain, i, j + 1) == Visited(chain, i, j) + [EntryAt(chain, i, j)]
  {
    assert EntriesOf(chain[i])[..j + 1] == EntriesOf(chain[i])[..j] + [EntryAt(chain, i, j)];
  }

  lemma VisitEnds(chain: seq<Block>, i: nat)
    requires i < |chain|
    ensures Visited(chain, i, 0) == Flat(chain[..i])
    ensures Visited(chain, i, |chain[i].header.transactions|) == Flat(chain[..i + 1])
  {
    FlatStep(chain, i);
    assert EntriesOf(chain[i])[..|chain[i].header.transactions|] == EntriesOf(chain[i]);
    assert EntriesOf(chain[i])[..0] == [];
  }

  /** The j-th transaction of block i stands after those of the blocks before, with its block's index, hash and time. */
  lemma {:induction false} FlatAt(chain: seq<Block>, i: nat, j: nat)
    requires i < |chain| && j < |chain[i].header.transactions|
    ensures
      var k := |Flat(chain[..i])| + j;
      var b := chain[i];
      k < |Flat(chain)| && Flat(chain)[k] == Entry(b.header.transactions[j], b.header.index, b.hash, b.header.timestamp)
    decreases |chain|
  {
    var n := |chain| - 1;
    if i == n {
    } else {
      assert chain[..n][..i] == chain[..i];
      FlatAt(chain[..n], i, j);
    }
  }

  /** Every place of the flat listing is one of those. */
  lemma {:induction false} FlatCovers(chain: seq<Block>, k: nat) returns (i: nat, j: nat)
    requires k < |Flat(chain)|
    ensures i < |chain| && j < |chain[i].header.transactions| && k == |Flat(chain[..i])| + j
    decreases |chain|
  {
    var n := |chain| - 1;
    if k >= |Flat(chain[..n])| {
      i, j := n, k - |Flat(chain[..n])|;
    } else {
      i, j := FlatCovers(chain[..n], k);
      assert chain[..n][..i] == chain[..i];
    }
  }

  lemma {:induction false} TotalConcat(m: Measure, es: seq<Entry>, fs: seq<Entry>)
    ensures Total(m, es + fs) == Total(m, es) + Total(m, fs)
    decreases |fs|
  {
    if fs == [] {
      assert es + fs == es;
    } else {
      var n := |fs| - 1;
      assert es + fs == (es + fs[..n]) + [fs[n]];
      TotalStep(m, es + fs[..n], fs[n]);
      TotalConcat(m, es, fs[..n]);
    }
  }

  lemma {:induction false} ForConcat(es: seq<Entry>, fs: seq<Entry>, recipient: string)
    ensures For(es + fs, recipient) == For(es, recipient) + For(fs, recipient)
    decreases |fs|
  {
    if fs == [] {
      assert es + fs == es;
    } else {
      var n := |fs| - 1;
      assert es + fs == (es + fs[..n]) + [fs[n]];
      ForStep(es + fs[..n], fs[n], recipient);
      ForConcat(es, fs[..n], recipient);
    }
  }

  /** A block added at the end moves a balance by what it holds for that recipient. */
  lemma BalanceStep(chain: seq<Block>, b: Block, recipient: string)
    ensures BalanceOf(chain + [b], recipient) == BalanceOf(chain, recipient) + Total(Amount, For(EntriesOf(b), recipient))
  {
    FlatStep(chain + [b], |chain|);
    assert (chain + [b])[..|chain|] == chain && (chain + [b])[..|chain| + 1] == chain + [b];
    ForConcat(Flat(chain), EntriesOf(b), recipient);
    TotalConcat(Amount, For(Flat(chain), recipient), For(EntriesOf(b), recipient));
  }

  /** What one turn of the inner loop adds to a filtered list and its sum. */
  lemma VisitFiltered(chain: seq<Block>, i: nat, j: nat, recipient: string)
    requires i < |chain| && j < |chain[i].header.transactions|
    ensures
      var e := EntryAt(chain, i, j);
      var prior, next := For(Visited(chain, i, j), recipient), For(Visited(chain, i, j + 1), recipient);
      if e.tx.recipient == recipient then next == prior + [e] && Total(Amount, next) == Total(Amount, prior) + e.tx.amount
      else next == prior
  {
    VisitNext(chain, i, j);
    ForStep(Visited(chain, i, j), EntryAt(chain, i, j), recipient);
    TotalStep(Amount, For(Visited(chain, i, j), recipient), EntryAt(chain, i, j));
  }

  lemma SingleTxBlock(b: Block, tx: Tx, recipient: string)
    requires b.header.transactions == [tx]
    ensures Total(Amount, For(EntriesOf(b), recipient)) == if tx.recipient == recipient then tx.amount else 0
  {
    var e := EntriesOf(b)[0];
    assert EntriesOf(b) == [e] && [e][..0] == [];
    assert For([e], recipient) == if tx.recipient == recipient then [e] else [];
  }

  // ---- The loops ----

  method ComputeTotals(chain: seq<Block>) returns (minted: int, count: int)
    ensures minted == Total(Amount, Flat(chain))
    ensures count == |Flat(chain)|
  {
    minted, count := 0, 0;
    for i := 0 to |chain|
      invariant minted == Total(Amount, Flat(chain[..i])) && count == |Flat(chain[..i])|
    {
      VisitEnds(chain, i);
      for j := 0 to |chain[i].header.transactions|
        invariant minted == Total(Amount, Visited(chain, i, j)) && count == |Visited(chain, i, j)|
      {
        VisitNext(chain, i, j);
        TotalStep(Amount, Visited(chain, i, j), EntryAt(chain, i, j));
        minted := minted + chain[i].header.transactions[j].amount;
        count := count + 1;
      }
    }
    assert chain[..|chain|] == chain;
  }

  method GetBalance(chain: seq<Block>, recipient: string) returns (balance: int)
    ensures balance == RoundCents(BalanceOf(chain, recipient))
  {
    var sum := 0;
    for i := 0 to |chain|
      invariant sum == Total(Amount, For(Flat(chain[..i]), recipient))
    {
      VisitEnds(chain, i);
      for j := 0 to |chain[i].header.transactions|
        invariant sum == Total(Amount, For(Visited(chain, i, j), recipient))
      {
        VisitFiltered(chain, i, j, recipient);
        var tx := chain[i].header.transactions[j];
        if tx.recipient == recipient {
          sum := sum + tx.amount;
        }
      }
    }
    assert chain[..|chain|] == chain;
    balance := RoundCents(sum);
  }

  function Reversed(es: seq<Entry>): (r: seq<Entry>)
    ensures |r| == |es|
  {
    seq(|es|, i requires 0 <= i < |es| => es[|es| - 1 - i])
  }

  method GetTransactions(chain: seq<Block>, recipient: string) returns (result: seq<Entry>)
    ensures result == Reversed(For(Flat(chain), recipient))
  {
    var found: seq<Entry> := [];
    for i := 0 to |chain|
      invariant found == For(Flat(chain[..i]), recipient)
    {
      VisitEnds(chain, i);
      for j := 0 to |chain[i].header.transactions|
        invariant found == For(Visited(chain, i, j), recipient)
      {
        VisitFiltered(chain, i, j, recipient);
        var tx := chain[i].header.transactions[j];
        if tx.recipient == recipient {
          found := found + [Entry(tx, chain[i].header.index, chain[i].hash, chain[i].header.timestamp)];
        }
      }
    }
    assert chain[..|chain|] == chain;
    result := Reversed(found);
  }

  lemma SplitLast(es: seq<Entry>)
    requires es != []
    ensures es == es[..|es| - 1] + [es[|es| - 1]]
  {
  }

  /** `part` lists the recipient's entries, and `at` is where they stand. */
  ghost predicate ListsEntriesOf(part: seq<Entry>, es: seq<Entry>, recipient: string, at: seq<nat>) {
    && Selects(part, es, at)
    && forall i: nat :: i in at <==> i < |es| && es[i].tx.recipient == recipient
  }

  lemma ListsEntriesStep(part: seq<Entry>, es: seq<Entry>, recipient: string, at: seq<nat>, e: Entry) returns (next: seq<nat>)
    requires ListsEntriesOf(part, es, recipient, at)
    ensures ListsEntriesOf(if e.tx.recipient == recipient then part + [e] else part, es + [e], recipient, next)
  {
    next := SelectsStep(part, es, e, e.tx.recipient == recipient, at);
  }

  lemma ListsNextEntry(es: seq<Entry>, e: Entry, recipient: string, at: seq<nat>) returns (next: seq<nat>)
    requires ListsEntriesOf(For(es, recipient), es, recipient, at)
    ensures ListsEntriesOf(For(es + [e], recipient), es + [e], recipient, next)
  {
    next := ListsEntriesStep(For(es, recipient), es, recipient, at, e);
    ForStep(es, e, recipient);
  }

  lemma ListsNoEntries(recipient: string)
    ensures ListsEntriesOf(For([], recipient), [], recipient, [])
  {
  }

  lemma {:induction false} ForSelects(es: seq<Entry>, recipient: string) returns (at: seq<nat>)
    ensures ListsEntriesOf(For(es, recipient), es, recipient, at)
    decreases |es|
  {
    if es == [] {
      ListsNoEntries(recipient);
      at := [];
    } else {
      SplitLast(es);
      var front, e := es[..|es| - 1], es[|es| - 1];
      var earlier := ForSelects(front, recipient);
      at := ListsNextEntry(front, e, recipient, earlier);
    }
  }

  /** The places fall, and the list holds what stands there. */
  ghost predicate SelectsFalling(part: seq<Entry>, whole: seq<Entry>, at: seq<nat>) {
    && |at| == |part|
    && (forall a, b :: 0 <= a < b < |at| ==> at[a] > at[b])
    && (forall a :: 0 <= a < |at| ==> at[a] < |whole| && part[a] == whole[at[a]])
  }

  lemma ReversedSelectsFalling(part: seq<Entry>, whole: seq<Entry>, at: seq<nat>) returns (falling: seq<nat>)
    requires Selects(part, whole, at)
    ensures SelectsFalling(Reversed(part), whole, falling)
    ensures forall i: nat :: i in falling <==> i in at
  {
    falling := seq(|at|, i requires 0 <= i < |at| => at[|at| - 1 - i]);
    forall i: nat | i in at
      ensures i in falling
    {
      var a :| 0 <= a < |at| && at[a] == i;
      assert falling[|at| - 1 - a] == i;
    }
  }

  /** A transaction list holds exactly the recipient's entries of the chain, each before all that stand earlier in it. */
  lemma TransactionsNewestFirst(chain: seq<Block>, recipient: string) returns (at: seq<nat>)
    ensures SelectsFalling(Reversed(For(Flat(chain), recipient)), Flat(chain), at)
    ensures forall i: nat :: i in at <==> i < |Flat(chain)| && Flat(chain)[i].tx.recipient == recipient
  {
    var rising := ForSelects(Flat(chain), recipient);
    at := ReversedSelectsFalling(For(Flat(chain), recipient), Flat(chain), rising);
  }

  lemma {:induction false} ReversalKeepsTotal(m: Measure, es: seq<Entry>)
    ensures Total(m, Reversed(es)) == Total(m, es)
    decreases |es|
  {
    if es == [] {
    } else {
      var n := |es| - 1;
      assert Reversed(es) == [es[n]] + Reversed(es[..n]);
      TotalConcat(m, [es[n]], Reversed(es[..n]));
      TotalStep(m, [], es[n]);
      assert [] + [es[n]] == [es[n]];
      ReversalKeepsTotal(m, es[..n]);
    }
  }

  /** A displayed balance is the rounded sum of what the recipient's transaction list shows. */
  lemma BalanceIsSumOfTransactions(chain: seq<Block>, recipient: string)
    ensures RoundCents(Total(Amount, Reversed(For(Flat(chain), recipient)))) == RoundCents(BalanceOf(chain, recipient))
  {
    ReversalKeepsTotal(Amount, For(Flat(chain), recipient));
  }

  // ---- Holders ----

  datatype Holder = Holder(recipient: string, balance: int, txCount: int)

  /** Recipients other than the system account, in the order they first appear. */
  function Recipients(es: seq<Entry>): seq<string> {
    if es == [] then []
    else WithRecipient(Recipients(es[..|es| - 1]), es[|es| - 1].tx.recipient)
  }

  function WithRecipient(rs: seq<string>, r: string): seq<string> {
    if r == SYSTEM || r in rs then rs else rs + [r]
  }

  predicate Distinct(rs: seq<string>) {
    forall i, j :: 0 <= i < j < |rs| ==> rs[i] != rs[j]
  }

  lemma {:induction false} RecipientsDistinct(es: seq<Entry>)
    ensures Distinct(Recipients(es))
    decreases |es|
  {
    if es == [] {
    } else {
      RecipientsDistinct(es[..|es| - 1]);
    }
  }

  function Names(es: seq<Entry>): (names: seq<string>)
    ensures |names| == |es|
  {
    if es == [] then [] else Names(es[..|es| - 1]) + [es[|es| - 1].tx.recipient]
  }

  /** The recipient at place i is no system account and stands there for the first time. */
  predicate FirstAppearance(names: seq<string>, i: nat) {
    i < |names| && names[i] != SYSTEM && forall j :: 0 <= j < i ==> names[j] != names[i]
  }

  lemma FirstAppearanceStep(names: seq<string>, name: string)
    ensures forall i: nat :: FirstAppearance(names + [name], i) <==>
      FirstAppearance(names, i) || (i == |names| && name != SYSTEM && name !in names)
  {
    var longer := names + [name];
    assert forall i :: 0 <= i < |names| ==> longer[i] == names[i];
  }

  /** `rs` are the names at the places of their first appearance, the system account left out. */
  ghost predicate ListsFirstAppearances(rs: seq<string>, names: seq<string>, at: seq<nat>) {
    && Selects(rs, names, at)
    && (forall i: nat :: i in at <==> FirstAppearance(names, i))
    && (forall r :: r in rs <==> r in names && r != SYSTEM)
  }

  lemma FirstAppearancesStep(rs: seq<string>, names: seq<string>, at: seq<nat>, name: string) returns (next: seq<nat>)
    requires ListsFirstAppearances(rs, names, at)
    ensures ListsFirstAppearances(WithRecipient(rs, name), names + [name], next)
  {
    next := SelectsStep(rs, names, name, name != SYSTEM && name !in rs, at);
    FirstAppearanceStep(names, name);
  }

  lemma NoAppearances()
    ensures ListsFirstAppearances([], [], [])
  {
  }

  /** The holders are listed by first appearance, every recipient but the system account once. */
  lemma {:induction false} RecipientsByFirstAppearance(es: seq<Entry>) returns (at: seq<nat>)
    ensures ListsFirstAppearances(Recipients(es), Names(es), at)
    decreases |es|
  {
    if es == [] {
      NoAppearances();
      at := [];
    } else {
      var front := es[..|es| - 1];
      var earlier := RecipientsByFirstAppearance(front);
      at := FirstAppearancesStep(Recipients(front), Names(front), earlier, es[|es| - 1].tx.recipient);
    }
  }

  lemma {:induction false} NamedHaveEntries(es: seq<Entry>, r: string)
    ensures r in Names(es) <==> exists i :: 0 <= i < |es| && es[i].tx.recipient == r
    decreases |es|
  {
    if es == [] {
    } else {
      var front, e := es[..|es| - 1], es[|es| - 1];
      NamedHaveEntries(front, r);
      if i :| 0 <= i < |front| && front[i].tx.recipient == r {
        assert es[i].tx.recipient == r;
      }
      if i :| 0 <= i < |es| && es[i].tx.recipient == r {
        assert i < |front| ==> front[i].tx.recipient == r;
      }
    }
  }

  lemma {:induction false} StrangerHasNoEntries(es: seq<Entry>, r: string)
    requires r != SYSTEM && r !in Recipients(es)
    ensures For(es, r) == []
    decreases |es|
  {
    if es == [] {
    } else {
      StrangerHasNoEntries(es[..|es| - 1], r);
    }
  }

  function HolderOf(es: seq<Entry>, recipient: string): Holder {
    Holder(recipient, RoundCents(Total(Amount, For(es, recipient))), Total(Count, For(es, recipient)))
  }

  function HolderRows(es: seq<Entry>): (hs: seq<Holder>)
    ensures |hs| == |Recipients(es)|
  {
    seq(|Recipients(es)|, i requires 0 <= i < |Recipients(es)| => HolderOf(es, Recipients(es)[i]))
  }

  /** A stable descending sort by balance puts a row after every earlier one that is not smaller. */
  function Insert(rows: seq<Holder>, row: Holder): seq<Holder> {
    if rows == [] || rows[|rows| - 1].balance >= row.balance then rows + [row]
    else Insert(rows[..|rows| - 1], row) + [rows[|rows| - 1]]
  }

  function ByBalance(rows: seq<Holder>): seq<Holder> {
    if rows == [] then [] else Insert(ByBalance(rows[..|rows| - 1]), rows[|rows| - 1])
  }

  predicate Descending(rows: seq<Holder>) {
    forall i, j :: 0 <= i < j < |rows| ==> rows[i].balance >= rows[j].balance
  }

  lemma {:induction false} InsertPermutes(rows: seq<Holder>, row: Holder)
    ensures multiset(Insert(rows, row)) == multiset(rows) + multiset{row}
    decreases |rows|
  {
    if rows == [] || rows[|rows| - 1].balance >= row.balance {
    } else {
      var n := |rows| - 1;
      InsertPermutes(rows[..n], row);
      assert rows == rows[..n] + [rows[n]];
    }
  }

  predicate AllAtLeast(rows: seq<Holder>, low: int) {
    forall i :: 0 <= i < |rows| ==> rows[i].balance >= low
  }

  lemma {:induction false} InsertKeepsDescending(rows: seq<Holder>, row: Holder, low: int)
    requires Descending(rows) && AllAtLeast(rows, low) && row.balance >= low
    ensures Descending(Insert(rows, row)) && AllAtLeast(Insert(rows, row), low)
    decreases |rows|
  {
    if rows == [] || rows[|rows| - 1].balance >= row.balance {
    } else {
      var n := |rows| - 1;
      InsertKeepsDescending(rows[..n], row, rows[n].balance);
    }
  }

  lemma InsertSorts(rows: seq<Holder>, row: Holder)
    requires Descending(rows)
    ensures Descending(Insert(rows, row))
  {
    if rows == [] || row.balance < rows[|rows| - 1].balance {
      InsertKeepsDescending(rows, row, row.balance);
    } else {
      InsertKeepsDescending(rows, row, rows[|rows| - 1].balance);
    }
  }

  lemma {:induction false} ByBalanceSorts(rows: seq<Holder>)
    ensures Descending(ByBalance(rows))
    ensures multiset(ByBalance(rows)) == multiset(rows)
    decreases |rows|
  {
    if rows == [] {
    } else {
      var front, row := rows[..|rows| - 1], rows[|rows| - 1];
      ByBalanceSorts(front);
      InsertSorts(ByBalance(front), row);
      InsertPermutes(ByBalance(front), row);
      assert rows == front + [row];
    }
  }

  function WithBalance(rows: seq<Holder>, balance: int): seq<Holder> {
    if rows == [] then []
    else
      var last := rows[|rows| - 1];
      if last.balance == balance then WithBalance(rows[..|rows| - 1], balance) + [last]
      else WithBalance(rows[..|rows| - 1], balance)
  }

  lemma WithBalanceStep(rows: seq<Holder>, row: Holder, balance: int)
    ensures WithBalance(rows + [row], balance)
         == if row.balance == balance then WithBalance(rows, balance) + [row] else WithBalance(rows, balance)
  {
    assert (rows + [row])[..|rows|] == rows;
  }

  lemma {:induction false} InsertIsStable(rows: seq<Holder>, row: Holder, balance: int)
    ensures WithBalance(Insert(rows, row), balance) == WithBalance(rows + [row], balance)
    decreases |rows|
  {
    WithBalanceStep(rows, row, balance);
    if rows == [] || rows[|rows| - 1].balance >= row.balance {
    } else {
      var front, last := rows[..|rows| - 1], rows[|rows| - 1];
      InsertIsStable(front, row, balance);
      WithBalanceStep(front, row, balance);
      WithBalanceStep(Insert(front, row), last, balance);
    }
  }

  /** Rows of equal balance keep their order. */
  lemma {:induction false} SortIsStable(rows: seq<Holder>, balance: int)
    ensures WithBalance(ByBalance(rows), balance) == WithBalance(rows, balance)
    decreases |rows|
  {
    if rows == [] {
    } else {
      var front, row := rows[..|rows| - 1], rows[|rows| - 1];
      SortIsStable(front, balance);
      InsertIsStable(ByBalance(front), row, balance);
      WithBalanceStep(ByBalance(front), row, balance);
    }
  }

  /** The running sums kept for one recipient. */
  datatype Running = Running(balance: int, txCount: int)

  /** The accumulator of the loop: recipients in order of first appearance, and their sums. */
  datatype Book = Book(order: seq<string>, holders: map<string, Running>)

  function Credit(book: Book, tx: Tx): Book {
    if tx.recipient == SYSTEM then book
    else
      var seen := tx.recipient in book.holders;
      var prior := if seen then book.holders[tx.recipient] else Running(0, 0);
      Book(if seen then book.order else book.order + [tx.recipient],
           book.holders[tx.recipient := Running(prior.balance + tx.amount, prior.txCount + 1)])
  }

  function BookOf(es: seq<Entry>): Book {
    if es == [] then Book([], map[]) else Credit(BookOf(es[..|es| - 1]), es[|es| - 1].tx)
  }

  function RunningOf(es: seq<Entry>, recipient: string): Running {
    Running(Total(Amount, For(es, recipient)), Total(Count, For(es, recipient)))
  }

  ghost predicate Balanced(es: seq<Entry>, book: Book) {
    && book.order == Recipients(es)
    && (forall r :: r in book.holders <==> r in book.order)
    && (forall r :: r in book.holders ==> book.holders[r] == RunningOf(es, r))
  }

  lemma RunningStep(es: seq<Entry>, e: Entry, recipient: string)
    ensures
      var prior, next := RunningOf(es, recipient), RunningOf(es + [e], recipient);
      if e.tx.recipient == recipient then next == Running(prior.balance + e.tx.amount, prior.txCount + 1)
      else next == prior
  {
    ForStep(es, e, recipient);
    TotalStep(Amount, For(es, recipient), e);
    TotalStep(Count, For(es, recipient), e);
  }

  lemma CreditStep(es: seq<Entry>, e: Entry, book: Book)
    requires Balanced(es, book)
    ensures Balanced(es + [e], Credit(book, e.tx))
  {
    var r, next := e.tx.recipient, Credit(book, e.tx);
    assert next.order == Recipients(es + [e]) by {
      assert (es + [e])[..|es|] == es;
      SystemIsNoHolder(es);
    }
    if r != SYSTEM && r !in book.holders {
      StrangerHasNoEntries(es, r);
    }
    assert SYSTEM !in book.holders by {
      SystemIsNoHolder(es);
    }
    forall q | q in next.holders
      ensures next.holders[q] == RunningOf(es + [e], q)
    {
      RunningStep(es, e, q);
    }
  }

  lemma {:induction false} SystemIsNoHolder(es: seq<Entry>)
    ensures SYSTEM !in Recipients(es)
    decreases |es|
  {
    if es == [] {
    } else {
      SystemIsNoHolder(es[..|es| - 1]);
    }
  }

  lemma {:induction false} BookBalances(es: seq<Entry>)
    ensures Balanced(es, BookOf(es))
    decreases |es|
  {
    if es == [] {
    } else {
      var front, e := es[..|es| - 1], es[|es| - 1];
      BookBalances(front);
      CreditStep(front, e, BookOf(front));
      assert front + [e] == es;
    }
  }

  lemma BookStep(chain: seq<Block>, i: nat, j: nat)
    requires i < |chain| && j < |chain[i].header.transactions|
    ensures BookOf(Visited(chain, i, j + 1)) == Credit(BookOf(Visited(chain, i, j)), chain[i].header.transactions[j])
  {
    VisitNext(chain, i, j);
    var prior := Visited(chain, i, j);
    assert (prior + [EntryAt(chain, i, j)])[..|prior|] == prior;
  }

  function RowsOf(book: Book): seq<Holder> {
    seq(|book.order|, i requires 0 <= i < |book.order| =>
      var r := book.order[i];
      var sums := if r in book.holders then book.holders[r] else Running(0, 0);
      Holder(r, RoundCents(sums.balance), sums.txCount))
  }

  lemma RowsAreHolderRows(es: seq<Entry>)
    ensures RowsOf(BookOf(es)) == HolderRows(es)
  {
    BookBalances(es);
    forall i | 0 <= i < |Recipients(es)|
      ensures RowsOf(BookOf(es))[i] == HolderRows(es)[i]
    {
      assert Recipients(es)[i] in BookOf(es).order;
    }
  }

  method CreditHolder(order: seq<string>, holders: map<string, Running>, tx: Tx)
    returns (newOrder: seq<string>, newHolders: map<string, Running>)
    ensures Book(newOrder, newHolders) == Credit(Book(order, holders), tx)
  {
    newOrder, newHolders := order, holders;
    if tx.recipient == SYSTEM {
      return;
    }
    if tx.recipient !in newHolders {
      newOrder := newOrder + [tx.recipient];
      newHolders := newHolders[tx.recipient := Running(0, 0)];
    }
    var sums := newHolders[tx.recipient];
    newHolders := newHolders[tx.recipient := Running(sums.balance + tx.amount, sums.txCount + 1)];
  }

  method GetAllHolders(chain: seq<Block>) returns (rows: seq<Holder>)
    ensures rows == ByBalance(HolderRows(Flat(chain)))
  {
    var order: seq<string> := [];
    var holders: map<string, Running> := map[];
    for i := 0 to |chain|
      invariant Book(order, holders) == BookOf(Flat(chain[..i]))
    {
      VisitEnds(chain, i);
      for j := 0 to |chain[i].header.transactions|
        invariant Book(order, holders) == BookOf(Visited(chain, i, j))
      {
        BookStep(chain, i, j);
        order, holders := CreditHolder(order, holders, chain[i].header.transactions[j]);
      }
    }
    assert chain[..|chain|] == chain;
    RowsAreHolderRows(Flat(chain));
    rows := ByBalance(RowsOf(Book(order, holders)));
  }

  /** The sort loses no row and puts larger balances first. */
  lemma HoldersSorted(chain: seq<Block>)
    ensures Descending(ByBalance(HolderRows(Flat(chain))))
    ensures multiset(ByBalance(HolderRows(Flat(chain)))) == multiset(HolderRows(Flat(chain)))
  {
    ByBalanceSorts(HolderRows(Flat(chain)));
  }

  lemma {:induction false} CountIsLength(es: seq<Entry>)
    ensures Total(Count, es) == |es|
    decreases |es|
  {
    if es == [] {
    } else {
      CountIsLength(es[..|es| - 1]);
    }
  }

  lemma SortedRowsAreRows(rows: seq<Holder>)
    ensures forall row :: row in ByBalance(rows) <==> row in rows
  {
    ByBalanceSorts(rows);
    forall row
      ensures row in ByBalance(rows) <==> row in rows
    {
      assert row in ByBalance(rows) <==> row in multiset(ByBalance(rows));
      assert row in rows <==> row in multiset(rows);
    }
  }

  /**
   * The holder list has a row for exactly the recipients other than the system account that any
   * transaction names, showing the balance the recipient is shown and the length of its transaction list.
   */
  lemma HoldersShowBalances(chain: seq<Block>)
    ensures
      var es, rows := Flat(chain), ByBalance(HolderRows(Flat(chain)));
      && (forall row :: row in rows ==>
            && row.recipient != "mobius-system"
            && row.balance == RoundCents(BalanceOf(chain, row.recipient))
            && row.txCount == |Reversed(For(es, row.recipient))|)
      && (forall i :: 0 <= i < |es| && es[i].tx.recipient != "mobius-system" ==>
            exists row :: row in rows && row.recipient == es[i].tx.recipient)
  {
    var es := Flat(chain);
    var rows := HolderRows(es);
    SortedRowsAreRows(rows);
    var at := RecipientsByFirstAppearance(es);
    forall row | row in rows
      ensures row.recipient != SYSTEM && row.balance == RoundCents(BalanceOf(chain, row.recipient))
      ensures row.txCount == |For(es, row.recipient)|
    {
      var k :| 0 <= k < |rows| && rows[k] == row;
      assert Recipients(es)[k] in Recipients(es);
      CountIsLength(For(es, row.recipient));
    }
    forall i | 0 <= i < |es| && es[i].tx.recipient != SYSTEM
      ensures exists row :: row in rows && row.recipient == es[i].tx.recipient
    {
      NamedHaveEntries(es, es[i].tx.recipient);
      var k :| 0 <= k < |Recipients(es)| && Recipients(es)[k] == es[i].tx.recipient;
      assert rows[k] in rows;
    }
  }

  // ---- Conservation ----

  /** One measure, added up over several recipients. */
  function TotalOver(m: Measure, rs: seq<string>, es: seq<Entry>): int {
    if rs == [] then 0 else TotalOver(m, rs[..|rs| - 1], es) + Total(m, For(es, rs[|rs| - 1]))
  }

  lemma {:induction false} TotalOverStep(m: Measure, rs: seq<string>, es: seq<Entry>, e: Entry)
    requires Distinct(rs)
    ensures TotalOver(m, rs, es + [e]) == TotalOver(m, rs, es) + (if e.tx.recipient in rs then Weight(m, e) else 0)
    decreases |rs|
  {
    if rs == [] {
    } else {
      var n := |rs| - 1;
      TotalOverStep(m, rs[..n], es, e);
      ForStep(es, e, rs[n]);
      TotalStep(m, For(es, rs[n]), e);
      var r := e.tx.recipient;
      assert r in rs <==> r in rs[..n] || r == rs[n];
      assert rs[n] !in rs[..n];
    }
  }

  lemma TotalOverNewcomer(m: Measure, es: seq<Entry>, e: Entry)
    requires e.tx.recipient != SYSTEM && e.tx.recipient !in Recipients(es)
    ensures
      var rs := Recipients(es);
      TotalOver(m, rs + [e.tx.recipient], es + [e]) == TotalOver(m, rs, es) + Weight(m, e)
  {
    var rs, r := Recipients(es), e.tx.recipient;
    assert (rs + [r])[..|rs|] == rs;
    RecipientsDistinct(es);
    TotalOverStep(m, rs, es, e);
    StrangerHasNoEntries(es, r);
    ForStep(es, e, r);
    TotalStep(m, [], e);
  }

  /** Every transaction belongs to exactly one holder or to the system account. */
  predicate Partitioned(m: Measure, es: seq<Entry>) {
    TotalOver(m, Recipients(es), es) + Total(m, For(es, SYSTEM)) == Total(m, es)
  }

  lemma {:induction false} HoldersPartitionEntries(m: Measure, es: seq<Entry>)
    ensures Partitioned(m, es)
    decreases |es|
  {
    if es == [] {
    } else {
      var front, e := es[..|es| - 1], es[|es| - 1];
      SplitLast(es);
      HoldersPartitionEntries(m, front);
      PartitionStep(m, front, e);
    }
  }

  lemma PartitionStep(m: Measure, es: seq<Entry>, e: Entry)
    requires Partitioned(m, es)
    ensures Partitioned(m, es + [e])
  {
    assert Recipients(es + [e]) == WithRecipient(Recipients(es), e.tx.recipient) by {
      assert (es + [e])[..|es|] == es;
    }
    TotalStep(m, es, e);
    ForStep(es, e, SYSTEM);
    TotalStep(m, For(es, SYSTEM), e);
    if e.tx.recipient != SYSTEM && e.tx.recipient !in Recipients(es) {
      TotalOverNewcomer(m, es, e);
    } else {
      SystemIsNoHolder(es);
      RecipientsDistinct(es);
      TotalOverStep(m, Recipients(es), es, e);
    }
  }

  function SumBalances(rows: seq<Holder>): int {
    if rows == [] then 0 else SumBalances(rows[..|rows| - 1]) + rows[|rows| - 1].balance
  }

  function SumCounts(rows: seq<Holder>): int {
    if rows == [] then 0 else SumCounts(rows[..|rows| - 1]) + rows[|rows| - 1].txCount
  }

  lemma {:induction false} InsertAddsRow(rows: seq<Holder>, row: Holder)
    ensures SumBalances(Insert(rows, row)) == SumBalances(rows) + row.balance
    ensures SumCounts(Insert(rows, row)) == SumCounts(rows) + row.txCount
    decreases |rows|
  {
    if rows != [] && rows[|rows| - 1].balance < row.balance {
      var n := |rows| - 1;
      InsertAddsRow(rows[..n], row);
      var front := Insert(rows[..n], row);
      assert (front + [rows[n]])[..|front|] == front;
    } else {
      assert (rows + [row])[..|rows|] == rows;
    }
  }

  lemma {:induction false} SortingKeepsSums(rows: seq<Holder>)
    ensures SumBalances(ByBalance(rows)) == SumBalances(rows)
    ensures SumCounts(ByBalance(rows)) == SumCounts(rows)
    decreases |rows|
  {
    if rows == [] {
    } else {
      var n := |rows| - 1;
      SortingKeepsSums(rows[..n]);
      InsertAddsRow(ByBalance(rows[..n]), rows[n]);
    }
  }

  lemma {:induction false} RowsNearTotals(es: seq<Entry>, k: nat)
    requires k <= |Recipients(es)|
    ensures
      var rs := Recipients(es)[..k];
      && SumCounts(HolderRows(es)[..k]) == TotalOver(Count, rs, es)
      && -5_000 * k <= SumBalances(HolderRows(es)[..k]) - TotalOver(Amount, rs, es) <= 5_000 * k
  {
    if k == 0 {
    } else {
      RowsNearTotals(es, k - 1);
      assert Recipients(es)[..k][..k - 1] == Recipients(es)[..k - 1];
      assert HolderRows(es)[..k][..k - 1] == HolderRows(es)[..k - 1];
    }
  }

  /**
   * The holder list accounts for every transaction: its counts and the system account's add up to
   * the total, and its rounded balances are within half a cent per row, and half a cent more, of the
   * displayed total when the system account's own sum is zero.
   */
  lemma HoldersConserve(chain: seq<Block>)
    ensures
      var es := Flat(chain);
      var rows := ByBalance(HolderRows(es));
      && SumCounts(rows) + |For(es, SYSTEM)| == |es|
      && (BalanceOf(chain, SYSTEM) == 0 ==>
            -5_000 * (|HolderRows(es)| + 1) <= SumBalances(rows) - RoundCents(Total(Amount, es)) <= 5_000 * (|HolderRows(es)| + 1))
  {
    var es := Flat(chain);
    var n := |Recipients(es)|;
    HoldersPartitionEntries(Amount, es);
    HoldersPartitionEntries(Count, es);
    CountIsLength(es);
    CountIsLength(For(es, SYSTEM));
    RowsNearTotals(es, n);
    assert Recipients(es)[..n] == Recipients(es) && HolderRows(es)[..n] == HolderRows(es);
    SortingKeepsSums(HolderRows(es));
  }
}
