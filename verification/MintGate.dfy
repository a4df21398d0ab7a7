/** The mint-gate effect of `hooks/useTerminalData.ts`, and the run of mints it sends to the wallet. */
module MintGate {
  import opened Wrappers
  import opened MicBlock
  import opened MicViews
  import opened MicChain
  import opened Wallet

  const FOUNTAIN_MINT_GI_THRESHOLD := 0.95
  const MINT_SOURCE := "echo_integrity_mint"

  datatype Integrity = Integrity(
    cycleId: string, totalMicProvisional: Option<real>, totalMicMinted: real,
    avgMii: real, eventCount: int, totalGiDelta: real)

  /** What one run of the effect sees; React may have merged any number of updates into it. */
  datatype Render = Render(integrity: Option<Integrity>, gi: Option<real>)

  /** What a mint sends to the wallet, and the score it was let through at. */
  datatype Mint = Mint(cycleId: string, amount: real, gi: real, meta: Meta)

  /** The record of what the render showed. */
  function MintRecord(i: Integrity, gi: Option<real>): Meta {
    [("cycleId", Text(i.cycleId)), ("avgMii", Number(i.avgMii)), ("eventCount", Number(i.eventCount as real)),
     ("totalGiDelta", Number(i.totalGiDelta)), ("giAtMint", if gi.Some? then Number(gi.value) else Null)]
  }

  function Provisional(i: Integrity): real {
    i.totalMicProvisional.GetOr(i.totalMicMinted)
  }

  /** The mint, if any, that the guards let through, given the cycle minted last. */
  function Fires(last: Option<string>, r: Render): Option<Mint> {
    if r.integrity == None then None
    else
      var i := r.integrity.value;
      if Provisional(i) <= 0.0 then None
      else if last == Some(i.cycleId) then None
      else if r.gi.GetOr(0.0) < FOUNTAIN_MINT_GI_THRESHOLD then None
      else Some(Mint(i.cycleId, Provisional(i), r.gi.GetOr(0.0), MintRecord(i, r.gi)))
  }

  function LastAfter(last: Option<string>, r: Render): Option<string> {
    if Fires(last, r).Some? then Some(Fires(last, r).value.cycleId) else last
  }

  /** One mounted terminal: the ref that remembers the last minted cycle, and its wallet. */
  class Gate {
    const wallet: WalletContext
    var lastMintedCycle: Option<string>

    constructor (wallet: WalletContext)
      ensures this.wallet == wallet && lastMintedCycle == None
    {
      this.wallet := wallet;
      lastMintedCycle := None;
    }

    method RunEffect(r: Render, snapshot: seq<Block>, now: string) returns (block: Option<Block>)
      modifies this, wallet.engine
      ensures lastMintedCycle == LastAfter(old(lastMintedCycle), r)
      ensures
        var fired := Fires(old(lastMintedCycle), r);
        var tx := if fired == None then None else EarnTx(MINT_SOURCE, fired.value.amount, Some(fired.value.meta));
        && wallet.engine.View() == AfterSubmit(wallet.engine.codec, old(wallet.engine.View()), snapshot, tx, now)
        && block == Recorded(wallet.engine.codec, snapshot, tx, now)
    {
      block := None;
      if r.integrity == None {
        return;
      }
      var i := r.integrity.value;
      var micProv := i.totalMicProvisional.GetOr(i.totalMicMinted);
      if micProv <= 0.0 {
        return;
      }
      if lastMintedCycle == Some(i.cycleId) {
        return;
      }
      if r.gi.GetOr(0.0) < FOUNTAIN_MINT_GI_THRESHOLD {
        return;
      }
      lastMintedCycle := Some(i.cycleId);
      block := wallet.EarnMIC(snapshot, MINT_SOURCE, micProv, Some(MintRecord(i, r.gi)), now);
    }
  }

  /**
   * A render mints exactly when it shows a cycle other than the last one minted, a positive value,
   * which is the provisional one or the minted one when there is no provisional one, and an integrity
   * score of at least 0.95.
   */
  lemma FiresExactly(last: Option<string>, r: Render)
    ensures Fires(last, r).Some? <==>
      && r.integrity.Some? && last != Some(r.integrity.value.cycleId)
      && (match r.integrity.value.totalMicProvisional
          case Some(provisional) => provisional > 0.0
          case None => r.integrity.value.totalMicMinted > 0.0)
      && r.gi.Some? && r.gi.value >= 0.95
    ensures Fires(last, r).Some? ==>
      var i, m := r.integrity.value, Fires(last, r).value;
      && m.cycleId == i.cycleId && Some(m.gi) == r.gi
      && (match i.totalMicProvisional
          case Some(provisional) => m.amount == provisional
          case None => m.amount == i.totalMicMinted)
  {
  }

  /** The record of a mint, field by field in the order it is written. */
  lemma MintRecordReads(last: Option<string>, r: Render)
    requires Fires(last, r).Some?
    ensures
      var i, meta := r.integrity.value, Fires(last, r).value.meta;
      && FieldNames(meta) == ["cycleId", "avgMii", "eventCount", "totalGiDelta", "giAtMint"]
      && FieldOf(meta, "cycleId") == Some(Text(i.cycleId))
      && FieldOf(meta, "avgMii") == Some(Number(i.avgMii))
      && FieldOf(meta, "eventCount") == Some(Number(i.eventCount as real))
      && FieldOf(meta, "totalGiDelta") == Some(Number(i.totalGiDelta))
      && FieldOf(meta, "giAtMint") == Some(Number(r.gi.value))
  {
    var i := r.integrity.value;
    var m5 := [("giAtMint", Number(r.gi.value))];
    var m4 := [("totalGiDelta", Number(i.totalGiDelta))] + m5;
    var m3 := [("eventCount", Number(i.eventCount as real))] + m4;
    var m2 := [("avgMii", Number(i.avgMii))] + m3;
    assert Fires(last, r).value.meta == [("cycleId", Text(i.cycleId))] + m2;
    ReadsOn("cycleId", Text(i.cycleId), m2);
    ReadsOn("avgMii", Number(i.avgMii), m3);
    ReadsOn("eventCount", Number(i.eventCount as real), m4);
    ReadsOn("totalGiDelta", Number(i.totalGiDelta), m5);
    ReadsOn("giAtMint", Number(r.gi.value), []);
  }

  lemma ReadsOn(name: string, value: Value, rest: Meta)
    ensures FieldNames([(name, value)] + rest) == [name] + FieldNames(rest)
    ensures forall other :: FieldOf([(name, value)] + rest, other) == if other == name then Some(value) else FieldOf(rest, other)
  {
    assert ([(name, value)] + rest)[1..] == rest;
  }

  // ---- Every sequence of updates within one mount ----

  function LastOver(last: Option<string>, rs: seq<Render>): Option<string> {
    if rs == [] then last else LastAfter(LastOver(last, rs[..|rs| - 1]), rs[|rs| - 1])
  }

  function Mints(last: Option<string>, rs: seq<Render>): seq<Mint> {
    if rs == [] then []
    else
      var earlier := Mints(last, rs[..|rs| - 1]);
      var fired := Fires(LastOver(last, rs[..|rs| - 1]), rs[|rs| - 1]);
      if fired == None then earlier else earlier + [fired.value]
  }

  /** Every mint was authorised by the threshold and carries positive value, and no two in a row share a cycle. */
  lemma {:induction false} MintsAuthorisedAndAlternating(last: Option<string>, rs: seq<Render>)
    ensures
      var ms := Mints(last, rs);
      && (forall k :: 0 <= k < |ms| ==> ms[k].gi >= FOUNTAIN_MINT_GI_THRESHOLD && ms[k].amount > 0.0)
      && (forall k :: 1 <= k < |ms| ==> ms[k].cycleId != ms[k - 1].cycleId)
      && (ms != [] ==> last != Some(ms[0].cycleId))
      && LastOver(last, rs) == (if ms == [] then last else Some(ms[|ms| - 1].cycleId))
    decreases |rs|
  {
    if rs == [] {
    } else {
      MintsAuthorisedAndAlternating(last, rs[..|rs| - 1]);
    }
  }

  /** A render showed this cycle with this value, this integrity score and this record. */
  predicate Authorises(r: Render, m: Mint) {
    && r.integrity.Some? && r.integrity.value.cycleId == m.cycleId && Provisional(r.integrity.value) == m.amount
    && r.gi == Some(m.gi) && m.meta == MintRecord(r.integrity.value, r.gi)
  }

  /** Every mint is for the cycle, the provisional value, the score and the record that one render showed together. */
  lemma {:induction false} EveryMintWasShown(last: Option<string>, rs: seq<Render>, m: Mint)
    requires m in Mints(last, rs)
    ensures exists i :: 0 <= i < |rs| && Authorises(rs[i], m)
    decreases |rs|
  {
    var n := |rs| - 1;
    if m in Mints(last, rs[..n]) {
      EveryMintWasShown(last, rs[..n], m);
      var i :| 0 <= i < n && Authorises(rs[..n][i], m);
      assert Authorises(rs[i], m);
    } else {
      assert Authorises(rs[n], m);
    }
  }

  function CountOf(ms: seq<Mint>, cycle: string): nat {
    if ms == [] then 0 else CountOf(ms[..|ms| - 1], cycle) + (if ms[|ms| - 1].cycleId == cycle then 1 else 0)
  }

  predicate Shows(r: Render, cycle: string) {
    r.integrity.Some? && r.integrity.value.cycleId == cycle
  }

  predicate ShowsOther(r: Render, cycle: string) {
    r.integrity.Some? && r.integrity.value.cycleId != cycle
  }

  /** Once another cycle has been shown, this one does not come back. */
  ghost predicate NonRecurring(rs: seq<Render>, cycle: string) {
    forall i, j, k :: 0 <= i < j < k < |rs| && Shows(rs[i], cycle) && Shows(rs[k], cycle) ==> !ShowsOther(rs[j], cycle)
  }

  /** Either the cycle was the last one minted, or it has been shown and then replaced. */
  ghost predicate SpentOrReplaced(rs: seq<Render>, cycle: string, last: Option<string>) {
    || (last == Some(cycle) && exists i :: 0 <= i < |rs| && Shows(rs[i], cycle))
    || (exists i, j :: 0 <= i < j < |rs| && Shows(rs[i], cycle) && ShowsOther(rs[j], cycle))
  }

  lemma NonRecurringBefore(rs: seq<Render>, cycle: string)
    requires rs != [] && NonRecurring(rs, cycle)
    ensures NonRecurring(rs[..|rs| - 1], cycle)
  {
    var front := rs[..|rs| - 1];
    forall i, j, k | 0 <= i < j < k < |front| && Shows(front[i], cycle) && Shows(front[k], cycle)
      ensures !ShowsOther(front[j], cycle)
    {
      assert front[i] == rs[i] && front[j] == rs[j] && front[k] == rs[k];
    }
  }

  ghost predicate MintedOnce(last: Option<string>, rs: seq<Render>, cycle: string) {
    var count := CountOf(Mints(last, rs), cycle);
    count == 0 || (count == 1 && SpentOrReplaced(rs, cycle, LastOver(last, rs)))
  }

  lemma LastRenderCounts(last: Option<string>, rs: seq<Render>, cycle: string)
    requires rs != []
    ensures
      var front := rs[..|rs| - 1];
      var fired := Fires(LastOver(last, front), rs[|rs| - 1]);
      var one := if fired.Some? && fired.value.cycleId == cycle then 1 else 0;
      CountOf(Mints(last, rs), cycle) == CountOf(Mints(last, front), cycle) + one
  {
    var front := rs[..|rs| - 1];
    var earlier, fired := Mints(last, front), Fires(LastOver(last, front), rs[|rs| - 1]);
    if fired.Some? {
      assert (earlier + [fired.value])[..|earlier|] == earlier;
    }
  }

  lemma RenderKeepsMintedOnce(last: Option<string>, rs: seq<Render>, cycle: string)
    requires rs != [] && NonRecurring(rs, cycle)
    requires MintedOnce(last, rs[..|rs| - 1], cycle)
    ensures MintedOnce(last, rs, cycle)
  {
    var n := |rs| - 1;
    LastRenderCounts(last, rs, cycle);
    if CountOf(Mints(last, rs[..n]), cycle) == 1 {
      SpentStays(last, rs, cycle);
    } else {
      var fired := Fires(LastOver(last, rs[..n]), rs[n]);
      assert fired.Some? ==> Shows(rs[n], fired.value.cycleId);
    }
  }

  /** A cycle that does not come back mints at most once, and afterwards it is spent for good. */
  lemma {:induction false} NonRecurringCycleMintsOnce(last: Option<string>, rs: seq<Render>, cycle: string)
    requires NonRecurring(rs, cycle)
    ensures MintedOnce(last, rs, cycle)
    decreases |rs|
  {
    if rs == [] {
    } else {
      NonRecurringBefore(rs, cycle);
      NonRecurringCycleMintsOnce(last, rs[..|rs| - 1], cycle);
      RenderKeepsMintedOnce(last, rs, cycle);
    }
  }

  lemma SpentStays(last: Option<string>, rs: seq<Render>, cycle: string)
    requires rs != [] && NonRecurring(rs, cycle)
    requires SpentOrReplaced(rs[..|rs| - 1], cycle, LastOver(last, rs[..|rs| - 1]))
    ensures SpentOrReplaced(rs, cycle, LastOver(last, rs))
    ensures
      var fired := Fires(LastOver(last, rs[..|rs| - 1]), rs[|rs| - 1]);
      fired.Some? ==> fired.value.cycleId != cycle
  {
    var n := |rs| - 1;
    var front := rs[..n];
    if i, j :| 0 <= i < j < n && Shows(front[i], cycle) && ShowsOther(front[j], cycle) {
      ReplacedCycleIsGone(rs, cycle, i, j);
    } else {
      var i :| 0 <= i < n && Shows(front[i], cycle);
      assert Shows(rs[i], cycle);
      var fired := Fires(LastOver(last, front), rs[n]);
      assert fired.Some? ==> ShowsOther(rs[n], cycle);
    }
  }

  lemma ReplacedCycleIsGone(rs: seq<Render>, cycle: string, i: nat, j: nat)
    requires NonRecurring(rs, cycle)
    requires i < j < |rs| - 1 && Shows(rs[i], cycle) && ShowsOther(rs[j], cycle)
    ensures !Shows(rs[|rs| - 1], cycle)
    ensures forall last :: SpentOrReplaced(rs, cycle, last)
  {
  }

  /**
   * The hypothesis is needed: a qualifying render mints its cycle once more exactly when that cycle
   * is not the last one minted, even if it was minted earlier in the run.
   */
  lemma QualifyingRenderMintsExactly(last: Option<string>, rs: seq<Render>, r: Render)
    requires r.integrity.Some? && Provisional(r.integrity.value) > 0.0 && r.gi.GetOr(0.0) >= FOUNTAIN_MINT_GI_THRESHOLD
    ensures
      var cycle := r.integrity.value.cycleId;
      CountOf(Mints(last, rs + [r]), cycle) == CountOf(Mints(last, rs), cycle) + 1 <==> LastOver(last, rs) != Some(cycle)
  {
    RenderStep(last, rs, r, r.integrity.value.cycleId);
  }

  lemma RenderStep(last: Option<string>, rs: seq<Render>, r: Render, cycle: string)
    ensures LastOver(last, rs + [r]) == LastAfter(LastOver(last, rs), r)
    ensures
      var fired := Fires(LastOver(last, rs), r);
      var one := if fired.Some? && fired.value.cycleId == cycle then 1 else 0;
      CountOf(Mints(last, rs + [r]), cycle) == CountOf(Mints(last, rs), cycle) + one
  {
    assert (rs + [r])[..|rs|] == rs;
    LastRenderCounts(last, rs + [r], cycle);
  }

  /**
   * A cycle held back by low integrity is not forgotten: as soon as a render shows it with positive
   * value and the threshold met, it has been minted in this run or was the last one minted before.
   */
  lemma {:induction false} RecoveredCycleIsMinted(last: Option<string>, rs: seq<Render>)
    requires rs != [] && rs[|rs| - 1].integrity.Some?
    requires Provisional(rs[|rs| - 1].integrity.value) > 0.0
    requires rs[|rs| - 1].gi.GetOr(0.0) >= FOUNTAIN_MINT_GI_THRESHOLD
    ensures
      var cycle := rs[|rs| - 1].integrity.value.cycleId;
      LastOver(last, rs) == Some(cycle) && (last == Some(cycle) || CountOf(Mints(last, rs), cycle) >= 1)
  {
    MintsAuthorisedAndAlternating(last, rs);
  }

  /** The render would mint its cycle, unless that is the last one minted. */
  predicate Qualifies(r: Render) {
    r.integrity.Some? && Provisional(r.integrity.value) > 0.0 && r.gi.GetOr(0.0) >= FOUNTAIN_MINT_GI_THRESHOLD
  }

  predicate QualifiesThis(r: Render, cycle: string) {
    Qualifies(r) && r.integrity.value.cycleId == cycle
  }

  predicate QualifiesOther(r: Render, cycle: string) {
    Qualifies(r) && r.integrity.value.cycleId != cycle
  }

  ghost predicate SomeThis(rs: seq<Render>, cycle: string) {
    exists j :: 0 <= j < |rs| && QualifiesThis(rs[j], cycle)
  }

  ghost predicate SomeOther(rs: seq<Render>, cycle: string) {
    exists i :: 0 <= i < |rs| && QualifiesOther(rs[i], cycle)
  }

  /** Another cycle qualified, and afterwards this one. */
  ghost predicate OtherThenThis(rs: seq<Render>, cycle: string) {
    exists i, j :: 0 <= i < j < |rs| && QualifiesOther(rs[i], cycle) && QualifiesThis(rs[j], cycle)
  }

  lemma QualifyingStep(rs: seq<Render>, cycle: string)
    requires rs != []
    ensures
      var front, r := rs[..|rs| - 1], rs[|rs| - 1];
      && (SomeThis(rs, cycle) <==> SomeThis(front, cycle) || QualifiesThis(r, cycle))
      && (SomeOther(rs, cycle) <==> SomeOther(front, cycle) || QualifiesOther(r, cycle))
      && (OtherThenThis(rs, cycle) <==> OtherThenThis(front, cycle) || (SomeOther(front, cycle) && QualifiesThis(r, cycle)))
  {
    var n := |rs| - 1;
    var front := rs[..n];
    assert forall i :: 0 <= i < n ==> front[i] == rs[i];
    if i :| 0 <= i < |rs| && QualifiesThis(rs[i], cycle) {
      assert i < n ==> QualifiesThis(front[i], cycle);
    }
    if i :| 0 <= i < |rs| && QualifiesOther(rs[i], cycle) {
      assert i < n ==> QualifiesOther(front[i], cycle);
    }
    if i, j :| 0 <= i < j < |rs| && QualifiesOther(rs[i], cycle) && QualifiesThis(rs[j], cycle) {
      assert QualifiesOther(front[i], cycle) && (j < n ==> QualifiesThis(front[j], cycle));
    }
    if i :| 0 <= i < n && QualifiesThis(front[i], cycle) {
      assert QualifiesThis(rs[i], cycle);
    }
    if i :| 0 <= i < n && QualifiesOther(front[i], cycle) {
      assert QualifiesOther(rs[i], cycle);
    }
    if i, j :| 0 <= i < j < n && QualifiesOther(front[i], cycle) && QualifiesThis(front[j], cycle) {
      assert QualifiesOther(rs[i], cycle) && QualifiesThis(rs[j], cycle);
    }
  }

  /** What the run says of a cycle: whether it was minted, and, while it was not, which cycle was last. */
  ghost predicate MintedAsQualified(last: Option<string>, rs: seq<Render>, cycle: string) {
    var minted := CountOf(Mints(last, rs), cycle) > 0;
    && (minted <==> if last == Some(cycle) then OtherThenThis(rs, cycle) else SomeThis(rs, cycle))
    && (!minted ==> (LastOver(last, rs) == Some(cycle) <==> last == Some(cycle) && !SomeOther(rs, cycle)))
  }

  lemma RenderKeepsMintedAsQualified(last: Option<string>, rs: seq<Render>, cycle: string)
    requires rs != [] && MintedAsQualified(last, rs[..|rs| - 1], cycle)
    ensures MintedAsQualified(last, rs, cycle)
  {
    LastRenderCounts(last, rs, cycle);
    QualifyingStep(rs, cycle);
  }

  /**
   * A run mints a cycle exactly when a render qualifies for it and, if it was the last one minted
   * before the run, a render of the run has qualified for another cycle first.
   */
  lemma {:induction false} MintedInRunExactly(last: Option<string>, rs: seq<Render>, cycle: string)
    ensures MintedAsQualified(last, rs, cycle)
    decreases |rs|
  {
    if rs == [] {
    } else {
      MintedInRunExactly(last, rs[..|rs| - 1], cycle);
      RenderKeepsMintedAsQualified(last, rs, cycle);
    }
  }

  // ---- What reaches the chain ----

  /** What a mint asks the wallet to write. */
  function MintTx(m: Mint): Tx {
    Tx(MINT_SOURCE, EarnedMicro(m.amount), OPERATOR, Some(m.meta))
  }

  /**
   * An authorised mint reaches the chain exactly when the captured chain is loaded. One that does not
   * is minted again exactly when another cycle qualifies first and then this one does.
   */
  lemma MintReachesChainExactly(
      c: Codec, last: Option<string>, r: Render, snapshot: seq<Block>, now: string, rs: seq<Render>)
    requires Fires(last, r).Some?
    ensures
      var m := Fires(last, r).value;
      && (Recorded(c, snapshot, EarnTx(MINT_SOURCE, m.amount, Some(m.meta)), now).Some? <==> snapshot != [])
      && EarnTx(MINT_SOURCE, m.amount, Some(m.meta)) ==
           Some(Tx("echo_integrity_mint", EarnedMicro(m.amount), "terminal-operator", Some(m.meta)))
      && (CountOf(Mints(LastAfter(last, r), rs), m.cycleId) > 0 <==> OtherThenThis(rs, m.cycleId))
  {
    MintedInRunExactly(LastAfter(last, r), rs, Fires(last, r).value.cycleId);
  }

  /** The earned transactions of one source, oldest first; what a burn takes is negative. */
  function EarnedFrom(es: seq<Entry>, source: string): seq<Tx> {
    if es == [] then []
    else
      var earlier, tx := EarnedFrom(es[..|es| - 1], source), es[|es| - 1].tx;
      if tx.source == source && tx.amount >= 0 then earlier + [tx] else earlier
  }

  function Sum(txs: seq<Tx>): int {
    if txs == [] then 0 else Sum(txs[..|txs| - 1]) + txs[|txs| - 1].amount
  }

  /** What a call earns from a source. */
  function EarnTxOf(call: WalletCall, source: string): seq<Tx> {
    if call.Earn? && call.source == source && call.amount > 0.0 then
      [Tx(source, EarnedMicro(call.amount), OPERATOR, call.meta)]
    else []
  }

  /** The amount and record of every successful earning of one source, in call order. */
  function EarnTxs(calls: seq<WalletCall>, source: string): seq<Tx> {
    if calls == [] then [] else EarnTxs(calls[..|calls| - 1], source) + EarnTxOf(calls[|calls| - 1], source)
  }

  function MintTxs(ms: seq<Mint>): seq<Tx> {
    if ms == [] then [] else MintTxs(ms[..|ms| - 1]) + [MintTx(ms[|ms| - 1])]
  }

  function SumAmounts(ms: seq<Mint>): real {
    if ms == [] then 0.0 else SumAmounts(ms[..|ms| - 1]) + ms[|ms| - 1].amount
  }

  lemma {:induction false} SumNearProvisional(ms: seq<Mint>)
    ensures -0.5 * |ms| as real <= Sum(MintTxs(ms)) as real - SumAmounts(ms) * 1_000_000.0 <= 0.5 * |ms| as real
    decreases |ms|
  {
    if ms == [] {
    } else {
      var n := |ms| - 1;
      SumNearProvisional(ms[..n]);
      SumStep(MintTxs(ms[..n]), MintTx(ms[n]));
    }
  }

  lemma SumStep(txs: seq<Tx>, tx: Tx)
    ensures Sum(txs + [tx]) == Sum(txs) + tx.amount
  {
    assert (txs + [tx])[..|txs|] == txs;
  }

  lemma {:induction false} SumConcat(xs: seq<Tx>, ys: seq<Tx>)
    ensures Sum(xs + ys) == Sum(xs) + Sum(ys)
    decreases |ys|
  {
    if ys == [] {
      assert xs + ys == xs;
    } else {
      var n := |ys| - 1;
      assert xs + ys == (xs + ys[..n]) + [ys[n]];
      SumStep(xs + ys[..n], ys[n]);
      SumConcat(xs, ys[..n]);
    }
  }

  /** No call of the run overlaps another: each captured the chain stored last. */
  ghost predicate InTurn(c: Codec, start: seq<Block>, calls: seq<WalletCall>) {
    if calls == [] then true
    else
      var front := calls[..|calls| - 1];
      InTurn(c, start, front) && calls[|calls| - 1].base == |WalletRun(c, start, front)| - 1
  }

  ghost function Latest(history: seq<seq<Block>>): seq<Block>
    requires history != []
  {
    history[|history| - 1]
  }

  lemma ExtendMovesEarned(c: Codec, snapshot: seq<Block>, tx: Tx, now: string, source: string)
    requires snapshot != []
    ensures
      var earned := EarnedFrom(Flat(snapshot), source);
      EarnedFrom(Flat(Extend(c, snapshot, [tx], now)), source)
      == if tx.source == source && tx.amount >= 0 then earned + [tx] else earned
  {
    var b := NewBlock(c, Tip(snapshot), [tx], now);
    var longer := snapshot + [b];
    FlatStep(longer, |snapshot|);
    assert longer[..|snapshot|] == snapshot && longer[..|snapshot| + 1] == longer;
    var es, e := Flat(snapshot), Entry(tx, b.header.index, b.hash, b.header.timestamp);
    assert EntriesOf(b) == [e];
    assert (es + [e])[..|es|] == es;
  }

  lemma CallMovesEarned(c: Codec, latest: seq<Block>, call: WalletCall, source: string)
    requires latest != []
    ensures
      var tx, earned := TxOf(latest, call), EarnedFrom(Flat(latest), source);
      && (tx == None ==> EarnTxOf(call, source) == [])
      && (tx.Some? ==> EarnedFrom(Flat(Extend(c, latest, [tx.value], call.now)), source) == earned + EarnTxOf(call, source))
  {
    var tx, earned := TxOf(latest, call), EarnedFrom(Flat(latest), source);
    if tx.Some? {
      ExtendMovesEarned(c, latest, tx.value, call.now, source);
      assert earned + [] == earned;
    }
  }

  /** What one more call leaves as the latest chain. */
  lemma LatestAfterCall(c: Codec, start: seq<Block>, calls: seq<WalletCall>, call: WalletCall)
    requires call.base == |WalletRun(c, start, calls)| - 1
    requires Latest(WalletRun(c, start, calls)) != []
    ensures
      var latest := Latest(WalletRun(c, start, calls));
      var tx := TxOf(latest, call);
      Latest(WalletRun(c, start, calls + [call])) == if tx == None then latest else Extend(c, latest, [tx.value], call.now)
  {
    WalletRunStep(c, start, calls, call);
  }

  /** The chain lists what was held at the start, then everything earned since. */
  ghost predicate Lists(chain: seq<Block>, source: string, held: seq<Tx>, earned: seq<Tx>) {
    chain != [] && EarnedFrom(Flat(chain), source) == held + earned
  }

  lemma CallKeepsListing(
      c: Codec, latest: seq<Block>, next: seq<Block>, call: WalletCall, source: string, held: seq<Tx>, earned: seq<Tx>)
    requires Lists(latest, source, held, earned)
    requires next == if TxOf(latest, call) == None then latest else Extend(c, latest, [TxOf(latest, call).value], call.now)
    ensures Lists(next, source, held, earned + EarnTxOf(call, source))
  {
    CallMovesEarned(c, latest, call, source);
    assert held + (earned + EarnTxOf(call, source)) == (held + earned) + EarnTxOf(call, source);
    assert (held + earned) + [] == held + earned;
  }

  ghost predicate EarningsKept(c: Codec, start: seq<Block>, calls: seq<WalletCall>, source: string) {
    Lists(Latest(WalletRun(c, start, calls)), source, EarnedFrom(Flat(start), source), EarnTxs(calls, source))
  }

  lemma NothingEarnedYet(c: Codec, start: seq<Block>, source: string)
    requires start != []
    ensures EarningsKept(c, start, [], source)
  {
    assert WalletRun(c, start, []) == [start];
    assert EarnedFrom(Flat(start), source) + [] == EarnedFrom(Flat(start), source);
  }

  lemma LatestAfterLast(c: Codec, start: seq<Block>, calls: seq<WalletCall>)
    requires calls != []
    requires calls[|calls| - 1].base == |WalletRun(c, start, calls[..|calls| - 1])| - 1
    requires Latest(WalletRun(c, start, calls[..|calls| - 1])) != []
    ensures
      var latest, call := Latest(WalletRun(c, start, calls[..|calls| - 1])), calls[|calls| - 1];
      var tx := TxOf(latest, call);
      Latest(WalletRun(c, start, calls)) == if tx == None then latest else Extend(c, latest, [tx.value], call.now)
  {
    var front, call := calls[..|calls| - 1], calls[|calls| - 1];
    LatestAfterCall(c, start, front, call);
    assert front + [call] == calls;
  }

  lemma LastCallKeepsEarnings(c: Codec, start: seq<Block>, calls: seq<WalletCall>, source: string)
    requires calls != [] && calls[|calls| - 1].base == |WalletRun(c, start, calls[..|calls| - 1])| - 1
    requires EarningsKept(c, start, calls[..|calls| - 1], source)
    ensures EarningsKept(c, start, calls, source)
  {
    var front, call := calls[..|calls| - 1], calls[|calls| - 1];
    LatestAfterLast(c, start, calls);
    CallKeepsListing(c, Latest(WalletRun(c, start, front)), Latest(WalletRun(c, start, calls)), call, source,
                     EarnedFrom(Flat(start), source), EarnTxs(front, source));
  }

  /**
   * When no calls overlap, whatever else the wallet earns and burns in between, the chain lists
   * every successful earning of a source, in call order, after those it held at the start.
   */
  lemma {:induction false} EarningsKeptInTurn(c: Codec, start: seq<Block>, calls: seq<WalletCall>, source: string)
    requires start != [] && InTurn(c, start, calls)
    ensures EarningsKept(c, start, calls, source)
    decreases |calls|
  {
    if calls == [] {
      NothingEarnedYet(c, start, source);
    } else {
      var front := calls[..|calls| - 1];
      EarningsKeptInTurn(c, start, front, source);
      LastCallKeepsEarnings(c, start, calls, source);
    }
  }

  /**
   * When no calls overlap and only the gate earns from its source, every mint is on the chain with
   * its record, and what the chain gained from that source differs from the provisional sum by at
   * most half a micro-MIC per mint, whatever the wallet earned and burned besides.
   */
  lemma ChainGainNearProvisional(
      c: Codec, start: seq<Block>, last: Option<string>, rs: seq<Render>, calls: seq<WalletCall>)
    requires start != [] && InTurn(c, start, calls)
    requires EarnTxs(calls, MINT_SOURCE) == MintTxs(Mints(last, rs))
    ensures
      var ms := Mints(last, rs);
      var before, after := EarnedFrom(Flat(start), MINT_SOURCE), EarnedFrom(Flat(Latest(WalletRun(c, start, calls))), MINT_SOURCE);
      && after == before + MintTxs(ms)
      && -0.5 * |ms| as real <= (Sum(after) - Sum(before)) as real - SumAmounts(ms) * 1_000_000.0 <= 0.5 * |ms| as real
  {
    var ms := Mints(last, rs);
    EarningsKeptInTurn(c, start, calls, MINT_SOURCE);
    SumConcat(EarnedFrom(Flat(start), MINT_SOURCE), MintTxs(ms));
    SumNearProvisional(ms);
  }
}
