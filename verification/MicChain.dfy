/**
 * The stateful part of `hooks/useMICBlockchain.ts`: initial load, addBlock, and what any
 * interleaving of overlapping addBlock calls can store.
 */
module MicChain {
  import opened Wrappers
  import opened Hashing
  import Merkle
  import opened MicBlock
  import opened MicViews

  datatype Stats = Stats(
    length: nat, totalMicMinted: int, totalTransactions: nat, isValid: bool,
    genesisTimestamp: Option<string>, latestTimestamp: Option<string>, latestHash: string, difficulty: nat)

  function StatsOf(c: Codec, chain: seq<Block>): Stats {
    Stats(|chain|, RoundCents(Total(Amount, Flat(chain))), |Flat(chain)|, ValidChain(c, chain),
          if chain == [] then None else Some(chain[0].header.timestamp),
          if chain == [] then None else Some(Tip(chain).header.timestamp),
          if chain == [] then "" else Tip(chain).hash,
          DIFFICULTY)
  }

  const GENESIS_TX := Tx("genesis", 0, SYSTEM, Some([
    ("message", Text("Mobius Integrity Credits \U{2014} Genesis Block")), ("version", Text("1.0.0"))]))

  ghost function Genesis(c: Codec, now: string): Block {
    var h := Header(0, now, [GENESIS_TX], ZeroHash(), RootOf(c, [GENESIS_TX]));
    Block(h, Mine(c, h).nonce, Mine(c, h).hash)
  }

  /** The chain an addBlock call stores: the chain it closed over, one block longer. */
  ghost function Extend(c: Codec, snapshot: seq<Block>, txs: seq<Tx>, now: string): seq<Block>
    requires snapshot != []
  {
    snapshot + [NewBlock(c, Tip(snapshot), txs, now)]
  }

  /** What a caller can see of the hook. */
  datatype Hook = Hook(chain: seq<Block>, saved: seq<Block>, stats: Stats)

  /** addBlock from a captured chain: nothing while that chain is empty, else the longer chain everywhere. */
  ghost function AfterAdd(c: Codec, before: Hook, snapshot: seq<Block>, txs: seq<Tx>, now: string): Hook {
    if snapshot == [] then before
    else
      var longer := Extend(c, snapshot, txs, now);
      Hook(longer, longer, StatsOf(c, longer))
  }

  ghost function Added(c: Codec, snapshot: seq<Block>, txs: seq<Tx>, now: string): Option<Block> {
    if snapshot == [] then None else Some(NewBlock(c, Tip(snapshot), txs, now))
  }

  /** The hook's state. `saved` is the copy in local storage, empty when there is none. */
  class MicBlockchain {
    const codec: Codec
    var chain: seq<Block>
    var saved: seq<Block>
    var stats: Stats

    ghost function View(): Hook
      reads this
    {
      Hook(chain, saved, stats)
    }

    constructor (codec: Codec, saved: seq<Block>)
      ensures this.codec == codec && this.saved == saved && chain == []
    {
      this.codec := codec;
      this.saved := saved;
      chain := [];
      stats := Stats(0, 0, 0, true, None, None, "", DIFFICULTY);
    }

    /** Storing a chain sets the state, the statistics and local storage together. */
    method Store(updated: seq<Block>, valid: bool)
      requires valid == ValidChain(codec, updated)
      modifies this
      ensures chain == saved == updated
      ensures stats == StatsOf(codec, updated)
    {
      chain := updated;
      var minted, count := ComputeTotals(updated);
      stats := Stats(|updated|, RoundCents(minted), count, valid,
                     if |updated| > 0 then Some(updated[0].header.timestamp) else None,
                     if |updated| > 0 then Some(updated[|updated| - 1].header.timestamp) else None,
                     if |updated| > 0 then updated[|updated| - 1].hash else "",
                     DIFFICULTY);
      saved := updated;
    }

    /** First load: what was saved, whether or not it is valid, or a newly mined genesis block. */
    method Initialise(now: string)
      modifies this
      ensures chain == saved == if old(saved) == [] then [Genesis(codec, now)] else old(saved)
      ensures stats == StatsOf(codec, chain)
    {
      var loaded := saved;
      if |loaded| == 0 {
        var root := Merkle.ComputeMerkleRoot(codec.sha, TxTexts(codec, [GENESIS_TX]));
        var h := Header(0, now, [GENESIS_TX], ZeroHash(), root);
        var mined := MineBlock(codec, h);
        MiningDeterministic(codec, h, mined, Mine(codec, h));
        loaded := [Block(h, mined.nonce, mined.hash)];
      }
      var valid := ValidateChain(codec, loaded);
      Store(loaded, valid);
    }

    /** One addBlock call, from the chain its closure captured to the state it leaves. */
    method AddBlock(snapshot: seq<Block>, txs: seq<Tx>, now: string) returns (added: Option<Block>)
      modifies this
      ensures View() == AfterAdd(codec, old(View()), snapshot, txs, now)
      ensures added == Added(codec, snapshot, txs, now)
    {
      if |snapshot| == 0 {
        return None;
      }
      var previous := snapshot[|snapshot| - 1];
      var root := Merkle.ComputeMerkleRoot(codec.sha, TxTexts(codec, txs));
      var h := Header(previous.header.index + 1, now, txs, previous.hash, root);
      var mined := MineBlock(codec, h);
      MiningDeterministic(codec, h, mined, Mine(codec, h));
      var block := Block(h, mined.nonce, mined.hash);
      var updated := snapshot + [block];
      var valid := ValidateChain(codec, updated);
      Store(updated, valid);
      added := Some(block);
    }
  }

  // ---- Every interleaving ----

  /**
   * An addBlock call in the order the calls finish. `base` says which stored chain its closure
   * captured, counting the initial one as 0; calls overlap when a base is not the latest chain.
   */
  datatype Call = Call(base: nat, txs: seq<Tx>, now: string)

  /** A call can only have captured a chain that was stored before it finished. */
  ghost predicate Finishes(history: seq<seq<Block>>, call: Call) {
    call.base < |history| && history[call.base] != []
  }

  ghost function Next(c: Codec, history: seq<seq<Block>>, call: Call): seq<seq<Block>> {
    if Finishes(history, call) then history + [Extend(c, history[call.base], call.txs, call.now)] else history
  }

  /** Every chain ever stored, oldest first. */
  ghost function Run(c: Codec, start: seq<Block>, calls: seq<Call>): (history: seq<seq<Block>>)
    ensures history != [] && history[0] == start
  {
    if calls == [] then [start] else Next(c, Run(c, start, calls[..|calls| - 1]), calls[|calls| - 1])
  }

  /** The search of the k-th call, if it stores anything, met the prefix. */
  ghost predicate CallMet(c: Codec, history: seq<seq<Block>>, call: Call) {
    Finishes(history, call) ==> MiningMet(c, Tip(history[call.base]), call.txs, call.now)
  }

  ghost predicate AllMet(c: Codec, start: seq<Block>, calls: seq<Call>) {
    forall k :: 0 <= k < |calls| ==> CallMet(c, Run(c, start, calls[..k]), calls[k])
  }

  ghost predicate AllValid(c: Codec, history: seq<seq<Block>>) {
    forall k :: 0 <= k < |history| ==> ValidChain(c, history[k]) && Indexed(history[k])
  }

  lemma NextStaysValid(c: Codec, history: seq<seq<Block>>, call: Call)
    requires AllValid(c, history) && CallMet(c, history, call)
    ensures AllValid(c, Next(c, history, call))
  {
    if Finishes(history, call) {
      AppendValidExactly(c, history[call.base], call.txs, call.now);
    }
  }

  lemma AllMetBefore(c: Codec, start: seq<Block>, calls: seq<Call>)
    requires AllMet(c, start, calls) && calls != []
    ensures AllMet(c, start, calls[..|calls| - 1])
    ensures CallMet(c, Run(c, start, calls[..|calls| - 1]), calls[|calls| - 1])
  {
    var front := calls[..|calls| - 1];
    forall k | 0 <= k < |front|
      ensures CallMet(c, Run(c, start, front[..k]), front[k])
    {
      assert front[..k] == calls[..k];
    }
  }

  /** However calls overlap, every chain ever stored is valid and has block i at index i. */
  lemma {:induction false} EveryStoredChainIsValid(c: Codec, start: seq<Block>, calls: seq<Call>)
    requires ValidChain(c, start) && Indexed(start)
    requires AllMet(c, start, calls)
    ensures AllValid(c, Run(c, start, calls))
    decreases |calls|
  {
    if calls == [] {
    } else {
      AllMetBefore(c, start, calls);
      EveryStoredChainIsValid(c, start, calls[..|calls| - 1]);
      NextStaysValid(c, Run(c, start, calls[..|calls| - 1]), calls[|calls| - 1]);
    }
  }

  /** The hypothesis is needed: a stored block whose search gave up makes its chain invalid, barring a collision. */
  lemma CapBlockInvalidatesChain(c: Codec, history: seq<seq<Block>>, call: Call)
    requires Finishes(history, call) && !CallMet(c, history, call)
    requires !CapNoncesCollide(c, NewHeader(c, Tip(history[call.base]), call.txs, call.now))
    ensures !ValidChain(c, Next(c, history, call)[|history|])
  {
    AppendValidExactly(c, history[call.base], call.txs, call.now);
  }

  /** Calls that do not overlap: each captures the chain the previous one stored. */
  ghost predicate OneAtATime(calls: seq<Call>) {
    forall k :: 0 <= k < |calls| ==> calls[k].base == k
  }

  /** Each stored chain extends every earlier one, by one block a call. */
  ghost predicate Growing(start: seq<Block>, history: seq<seq<Block>>) {
    && (forall k :: 0 <= k < |history| ==> |history[k]| == |start| + k)
    && (forall j, k :: 0 <= j <= k < |history| ==> history[j] <= history[k])
  }

  lemma NextStaysGrowing(c: Codec, start: seq<Block>, history: seq<seq<Block>>, call: Call)
    requires start != [] && Growing(start, history) && history != []
    requires call.base == |history| - 1
    ensures Growing(start, Next(c, history, call)) && |Next(c, history, call)| == |history| + 1
  {
    var latest := history[|history| - 1];
    assert latest != [];
    var longer := Extend(c, latest, call.txs, call.now);
    assert latest <= longer;
    forall j | 0 <= j < |history|
      ensures history[j] <= longer
    {
      assert history[j] <= latest;
    }
  }

  /** Then no block is lost: the history only grows. */
  lemma {:induction false} SequentialCallsOnlyExtend(c: Codec, start: seq<Block>, calls: seq<Call>)
    requires start != [] && OneAtATime(calls)
    ensures Growing(start, Run(c, start, calls)) && |Run(c, start, calls)| == |calls| + 1
    decreases |calls|
  {
    if calls == [] {
    } else {
      SequentialCallsOnlyExtend(c, start, calls[..|calls| - 1]);
      NextStaysGrowing(c, start, Run(c, start, calls[..|calls| - 1]), calls[|calls| - 1]);
    }
  }

  /** Every call captured a chain that was stored before it finished. */
  predicate CapturesStored(calls: seq<Call>) {
    forall k :: 0 <= k < |calls| ==> calls[k].base <= k
  }

  /** The chain the k-th call stored is the one it captured with its block at the end. */
  ghost predicate StoredBy(c: Codec, history: seq<seq<Block>>, k: nat, call: Call) {
    && call.base <= k && k + 1 < |history| && history[call.base] != []
    && history[k + 1] == Extend(c, history[call.base], call.txs, call.now)
  }

  ghost predicate AllStored(c: Codec, history: seq<seq<Block>>, calls: seq<Call>) {
    && |history| == |calls| + 1
    && (forall k :: 0 <= k < |history| ==> history[k] != [])
    && (forall k :: 0 <= k < |calls| ==> StoredBy(c, history, k, calls[k]))
  }

  lemma NextRecords(c: Codec, history: seq<seq<Block>>, calls: seq<Call>, call: Call)
    requires AllStored(c, history, calls) && call.base <= |calls|
    ensures AllStored(c, Next(c, history, call), calls + [call])
  {
    var next := Next(c, history, call);
    assert next[..|history|] == history;
    forall k | 0 <= k < |calls|
      ensures StoredBy(c, next, k, calls[k])
    {
      assert StoredBy(c, history, k, calls[k]);
    }
    assert StoredBy(c, next, |calls|, call);
  }

  lemma {:induction false} RunRecords(c: Codec, start: seq<Block>, calls: seq<Call>)
    requires start != [] && CapturesStored(calls)
    ensures AllStored(c, Run(c, start, calls), calls)
    decreases |calls|
  {
    if calls == [] {
    } else {
      var front, call := calls[..|calls| - 1], calls[|calls| - 1];
      RunRecords(c, start, front);
      NextRecords(c, Run(c, start, front), front, call);
      assert front + [call] == calls;
    }
  }

  /** The calls behind the j-th stored chain: the one that stored it, after those behind the chain it captured. */
  function Lineage(calls: seq<Call>, j: nat): (line: seq<nat>)
    requires CapturesStored(calls) && j <= |calls|
    ensures |line| <= j && forall i :: 0 <= i < |line| ==> line[i] < j
    decreases j
  {
    if j == 0 then [] else Lineage(calls, calls[j - 1].base) + [j - 1]
  }

  /** The chain is the initial one followed by the blocks the calls of its lineage appended. */
  ghost predicate HoldsLineage(history: seq<seq<Block>>, line: seq<nat>, j: nat)
    requires j < |history| && forall i :: 0 <= i < |line| ==> line[i] < j
    requires forall k :: 0 <= k < |history| ==> history[k] != []
  {
    && |history[j]| == |history[0]| + |line|
    && history[0] <= history[j]
    && forall i :: 0 <= i < |line| ==> history[j][|history[0]| + i] == Tip(history[line[i] + 1])
  }

  /** However calls overlap, a stored chain holds exactly the blocks of its lineage; all others are lost to it. */
  lemma {:induction false} SurvivorsAreLineage(c: Codec, history: seq<seq<Block>>, calls: seq<Call>, j: nat)
    requires CapturesStored(calls) && AllStored(c, history, calls) && j <= |calls|
    ensures HoldsLineage(history, Lineage(calls, j), j)
    decreases j
  {
    if j == 0 {
    } else {
      var call := calls[j - 1];
      assert StoredBy(c, history, j - 1, call);
      SurvivorsAreLineage(c, history, calls, call.base);
      LineageGrows(c, history, Lineage(calls, call.base), call.base, j);
    }
  }

  lemma LineageGrows(c: Codec, history: seq<seq<Block>>, line: seq<nat>, base: nat, j: nat)
    requires base < j < |history| && forall i :: 0 <= i < |line| ==> line[i] < base
    requires forall k :: 0 <= k < |history| ==> history[k] != []
    requires HoldsLineage(history, line, base)
    requires |history[j]| == |history[base]| + 1 && history[base] <= history[j]
    ensures HoldsLineage(history, line + [j - 1], j)
  {
  }

  lemma {:induction false} FullLineageExactly(calls: seq<Call>, j: nat)
    requires CapturesStored(calls) && j <= |calls|
    ensures |Lineage(calls, j)| == j <==> forall k :: 0 <= k < j ==> calls[k].base == k
    decreases j
  {
    if j == 0 {
    } else {
      FullLineageExactly(calls, calls[j - 1].base);
    }
  }

  /**
   * Every stored chain has at most one block more for each call before it, and the last one has them
   * all if and only if no calls overlapped.
   */
  lemma NoBlockLostExactly(c: Codec, start: seq<Block>, calls: seq<Call>)
    requires start != [] && CapturesStored(calls)
    ensures
      var history, n := Run(c, start, calls), |calls|;
      && |history| == n + 1
      && (forall j :: 0 <= j <= n ==> |history[j]| == |start| + |Lineage(calls, j)| <= |start| + j)
      && (|history[n]| == |start| + n <==> OneAtATime(calls))
  {
    var history := Run(c, start, calls);
    RunRecords(c, start, calls);
    forall j | 0 <= j <= |calls|
      ensures |history[j]| == |start| + |Lineage(calls, j)|
    {
      SurvivorsAreLineage(c, history, calls, j);
    }
    FullLineageExactly(calls, |calls|);
  }

  /** What survives of a run: the initial chain, then the blocks of the last chain's lineage in order. */
  lemma LastChainIsLineage(c: Codec, start: seq<Block>, calls: seq<Call>)
    requires start != [] && CapturesStored(calls)
    ensures AllStored(c, Run(c, start, calls), calls)
    ensures HoldsLineage(Run(c, start, calls), Lineage(calls, |calls|), |calls|)
  {
    RunRecords(c, start, calls);
    SurvivorsAreLineage(c, Run(c, start, calls), calls, |calls|);
  }
  /** The chain's last block was made from these transactions at this time: it holds them, their root and that time. */
  ghost predicate TipHolds(c: Codec, chain: seq<Block>, txs: seq<Tx>, now: string) {
    && chain != []
    && Tip(chain).header.transactions == txs
    && Tip(chain).header.merkleRoot == RootOf(c, txs)
    && Tip(chain).header.timestamp == now
  }

  /** However calls overlap, the block each call stores carries that call's transactions, their Merkle root and its time. */
  lemma StoredTipsHold(c: Codec, start: seq<Block>, calls: seq<Call>, k: nat)
    requires start != [] && CapturesStored(calls) && k < |calls|
    ensures |Run(c, start, calls)| == |calls| + 1
    ensures TipHolds(c, Run(c, start, calls)[k + 1], calls[k].txs, calls[k].now)
  {
    RunRecords(c, start, calls);
    assert StoredBy(c, Run(c, start, calls), k, calls[k]);
  }

  /** The genesis block is zero-linked, has index 0 and the root of its one transaction of zero MIC for the system. */
  lemma GenesisHolds(c: Codec, now: string)
    ensures TipHolds(c, [Genesis(c, now)], [GENESIS_TX], now)
    ensures
      var g := Genesis(c, now);
      && g.header.index == 0 && g.header.previousHash == ZeroHash()
      && g.header.transactions[0].amount == 0 && g.header.transactions[0].recipient == "mobius-system"
  {
  }

  /** What one more block does to the totals. */
  lemma BlockAddsToTotals(chain: seq<Block>, b: Block)
    ensures |Flat(chain + [b])| == |Flat(chain)| + |b.header.transactions|
    ensures |b.header.transactions| == 1 ==>
      Total(Amount, Flat(chain + [b])) == Total(Amount, Flat(chain)) + b.header.transactions[0].amount
  {
    FlatStep(chain + [b], |chain|);
    assert (chain + [b])[..|chain|] == chain && (chain + [b])[..|chain| + 1] == chain + [b];
    if |b.header.transactions| == 1 {
      var e := EntriesOf(b)[0];
      assert EntriesOf(b) == [e];
      TotalStep(Amount, Flat(chain), e);
    }
  }

  /** One addBlock moves the statistics by its block. */
  ghost predicate StatsMoved(c: Codec, snapshot: seq<Block>, txs: seq<Tx>, now: string, tip: Block, s: Stats) {
    && snapshot != []
    && s.length == |snapshot| + 1
    && s.totalTransactions == |Flat(snapshot)| + |txs|
    && (|txs| == 1 ==> s.totalMicMinted == RoundCents(Total(Amount, Flat(snapshot)) + txs[0].amount))
    && (MiningMet(c, Tip(snapshot), txs, now) ==> (s.isValid <==> ValidChain(c, snapshot)))
    && s.genesisTimestamp == Some(snapshot[0].header.timestamp) && s.latestTimestamp == Some(now)
    && s.latestHash == tip.hash && s.difficulty == 2
  }

  lemma LongerStats(c: Codec, snapshot: seq<Block>, txs: seq<Tx>, now: string)
    requires snapshot != []
    ensures StatsMoved(c, snapshot, txs, now, NewBlock(c, Tip(snapshot), txs, now), StatsOf(c, Extend(c, snapshot, txs, now)))
  {
    AppendValidExactly(c, snapshot, txs, now);
    BlockAddsToTotals(snapshot, NewBlock(c, Tip(snapshot), txs, now));
  }

  /** After one addBlock the state, the saved copy, the result and the statistics agree on the one block more. */
  lemma AddMovesEverything(c: Codec, before: Hook, snapshot: seq<Block>, txs: seq<Tx>, now: string)
    requires snapshot != []
    ensures
      var after := AfterAdd(c, before, snapshot, txs, now);
      && after.chain == after.saved && |after.chain| == |snapshot| + 1 && snapshot <= after.chain
      && TipHolds(c, after.chain, txs, now)
      && Added(c, snapshot, txs, now) == Some(Tip(after.chain))
      && StatsMoved(c, snapshot, txs, now, Tip(after.chain), after.stats)
  {
    LongerStats(c, snapshot, txs, now);
  }
}
