/**
 * The operator wallet of `contexts/WalletContext.tsx`: earning rounds to a millionth, burning and
 * display round to a cent, and every call works on the chain its closure captured.
 */
module Wallet {
  import opened Wrappers
  import opened MicBlock
  import opened MicViews
  import opened MicChain

  const OPERATOR := "terminal-operator"

  /** Math.round: to the nearest integer, halves upward (section 21.3.2.28 of ECMA-262). */
  function MathRound(x: real): (r: int)
    ensures x - 0.5 < r as real <= x + 0.5
  {
    (x + 0.5).Floor
  }

  /** Math.round(amount * 1000000) / 1000000, in micro-MIC. */
  function EarnedMicro(amount: real): int {
    MathRound(amount * 1_000_000.0)
  }

  /** Math.round(amount * 100) / 100, in micro-MIC. */
  function BurnedMicro(amount: real): int {
    MathRound(amount * 100.0) * 10_000
  }

  /** The balance shown for the operator. */
  function Displayed(chain: seq<Block>): int {
    RoundCents(BalanceOf(chain, OPERATOR))
  }

  /** An object spread followed by one field: the field keeps its place, or comes last when it is new. */
  function SetField(meta: Meta, name: string, value: Value): Meta {
    if meta == [] then [(name, value)]
    else if meta[0].0 == name then [(name, value)] + meta[1..]
    else [meta[0]] + SetField(meta[1..], name, value)
  }

  function FieldOf(meta: Meta, name: string): Option<Value> {
    if meta == [] then None
    else if meta[0].0 == name then Some(meta[0].1)
    else FieldOf(meta[1..], name)
  }

  lemma {:induction false} SetFieldThenRead(meta: Meta, name: string, value: Value, other: string)
    ensures FieldOf(SetField(meta, name, value), other) == if other == name then Some(value) else FieldOf(meta, other)
    decreases |meta|
  {
    if meta == [] || meta[0].0 == name {
    } else {
      SetFieldThenRead(meta[1..], name, value, other);
    }
  }

  function FieldNames(meta: Meta): seq<string> {
    if meta == [] then [] else [meta[0].0] + FieldNames(meta[1..])
  }

  /** A field that is set keeps its place, and a new one comes last. */
  lemma {:induction false} SetFieldKeepsOrder(meta: Meta, name: string, value: Value)
    ensures FieldNames(SetField(meta, name, value))
         == if FieldOf(meta, name).Some? then FieldNames(meta) else FieldNames(meta) + [name]
    decreases |meta|
  {
    if meta == [] || meta[0].0 == name {
    } else {
      SetFieldKeepsOrder(meta[1..], name, value);
    }
  }

  function EarnTx(source: string, amount: real, meta: Option<Meta>): Option<Tx> {
    if amount <= 0.0 then None else Some(Tx(source, EarnedMicro(amount), OPERATOR, meta))
  }

  function BurnTx(snapshot: seq<Block>, amount: real, source: string, meta: Option<Meta>): Option<Tx> {
    var burned := BurnedMicro(amount);
    if burned <= 0 || Displayed(snapshot) < burned then None
    else Some(Tx(source, -burned, OPERATOR, Some(SetField(meta.GetOr([]), "burn", Flag(true)))))
  }

  /** What either operation does to the engine, given the transaction its guards let through. */
  ghost function AfterSubmit(c: Codec, before: Hook, snapshot: seq<Block>, tx: Option<Tx>, now: string): Hook {
    if tx == None then before else AfterAdd(c, before, snapshot, [tx.value], now)
  }

  ghost function Recorded(c: Codec, snapshot: seq<Block>, tx: Option<Tx>, now: string): Option<Block> {
    if tx == None then None else Added(c, snapshot, [tx.value], now)
  }

  class WalletContext {
    const engine: MicBlockchain

    constructor (engine: MicBlockchain)
      ensures this.engine == engine
    {
      this.engine := engine;
    }

    method EarnMIC(snapshot: seq<Block>, source: string, amount: real, meta: Option<Meta>, now: string)
      returns (block: Option<Block>)
      modifies engine
      ensures engine.View() == AfterSubmit(engine.codec, old(engine.View()), snapshot, EarnTx(source, amount, meta), now)
      ensures block == Recorded(engine.codec, snapshot, EarnTx(source, amount, meta), now)
    {
      if amount <= 0.0 {
        return None;
      }
      var tx := Tx(source, MathRound(amount * 1_000_000.0), OPERATOR, meta);
      block := engine.AddBlock(snapshot, [tx], now);
    }

    method BurnMIC(snapshot: seq<Block>, amount: real, source: string, meta: Option<Meta>, now: string)
      returns (block: Option<Block>)
      modifies engine
      ensures engine.View() == AfterSubmit(engine.codec, old(engine.View()), snapshot, BurnTx(snapshot, amount, source, meta), now)
      ensures block == Recorded(engine.codec, snapshot, BurnTx(snapshot, amount, source, meta), now)
    {
      var burnAmount := MathRound(amount * 100.0) * 10_000;
      if burnAmount <= 0 {
        return None;
      }
      var balance := GetBalance(snapshot, OPERATOR);
      if balance < burnAmount {
        return None;
      }
      var tx := Tx(source, -burnAmount, OPERATOR, Some(SetField(meta.GetOr([]), "burn", Flag(true))));
      block := engine.AddBlock(snapshot, [tx], now);
    }
  }

  // ---- Every interleaving ----

  /** A wallet call, in the order the calls finish, with the stored chain its closure captured. */
  datatype WalletCall =
    | Earn(base: nat, source: string, amount: real, meta: Option<Meta>, now: string)
    | Burn(base: nat, amount: real, source: string, meta: Option<Meta>, now: string)

  function TxOf(snapshot: seq<Block>, call: WalletCall): Option<Tx> {
    match call
    case Earn(_, source, amount, meta, _) => EarnTx(source, amount, meta)
    case Burn(_, amount, source, meta, _) => BurnTx(snapshot, amount, source, meta)
  }

  ghost function Submit(history: seq<seq<Block>>, call: WalletCall): seq<Call> {
    if call.base < |history| && TxOf(history[call.base], call).Some? then
      [Call(call.base, [TxOf(history[call.base], call).value], call.now)]
    else []
  }

  /** The addBlock calls a run of wallet calls makes. */
  ghost function Submitted(c: Codec, start: seq<Block>, calls: seq<WalletCall>): seq<Call> {
    if calls == [] then []
    else
      var earlier := Submitted(c, start, calls[..|calls| - 1]);
      earlier + Submit(Run(c, start, earlier), calls[|calls| - 1])
  }

  ghost function WalletRun(c: Codec, start: seq<Block>, calls: seq<WalletCall>): (history: seq<seq<Block>>)
    ensures history != []
  {
    Run(c, start, Submitted(c, start, calls))
  }

  lemma RunStep(c: Codec, start: seq<Block>, earlier: seq<Call>, call: Call)
    ensures Run(c, start, earlier + [call]) == Next(c, Run(c, start, earlier), call)
  {
    assert (earlier + [call])[..|earlier|] == earlier;
  }

  /** What one more wallet call adds to a run. */
  lemma WalletRunStep(c: Codec, start: seq<Block>, calls: seq<WalletCall>, call: WalletCall)
    requires call.base < |WalletRun(c, start, calls)|
    ensures
      var history := WalletRun(c, start, calls);
      var tx := TxOf(history[call.base], call);
      WalletRun(c, start, calls + [call]) == if tx == None then history else Next(c, history, Call(call.base, [tx.value], call.now))
  {
    SubmittedStep(c, start, calls, call);
    var earlier := Submitted(c, start, calls);
    var tx := TxOf(WalletRun(c, start, calls)[call.base], call);
    if tx.Some? {
      RunStep(c, start, earlier, Call(call.base, [tx.value], call.now));
    }
  }

  lemma SubmittedStep(c: Codec, start: seq<Block>, calls: seq<WalletCall>, call: WalletCall)
    ensures
      var earlier := Submitted(c, start, calls);
      var more := Submit(Run(c, start, earlier), call);
      Submitted(c, start, calls + [call]) == if more == [] then earlier else earlier + more
  {
    assert (calls + [call])[..|calls|] == calls;
    var earlier := Submitted(c, start, calls);
    assert earlier + [] == earlier;
  }

  lemma SubmitMatchesNext(c: Codec, history: seq<seq<Block>>, call: WalletCall, before: Hook)
    requires call.base < |history| && before.chain == history[|history| - 1]
    ensures
      var snapshot := history[call.base];
      var tx := TxOf(snapshot, call);
      var next := if tx == None then history else Next(c, history, Call(call.base, [tx.value], call.now));
      AfterSubmit(c, before, snapshot, tx, call.now).chain == next[|next| - 1]
  {
  }

  /**
   * The engine's chain is always the last one of the run: a call that finds it so leaves it so,
   * whichever stored chain it captured.
   */
  lemma EngineHoldsLastChain(c: Codec, start: seq<Block>, calls: seq<WalletCall>, call: WalletCall, before: Hook)
    requires
      var history := WalletRun(c, start, calls);
      call.base < |history| && before.chain == history[|history| - 1]
    ensures
      var snapshot := WalletRun(c, start, calls)[call.base];
      var next := WalletRun(c, start, calls + [call]);
      AfterSubmit(c, before, snapshot, TxOf(snapshot, call), call.now).chain == next[|next| - 1]
  {
    WalletRunStep(c, start, calls, call);
    SubmitMatchesNext(c, WalletRun(c, start, calls), call, before);
  }

  lemma ExtendMovesBalance(c: Codec, snapshot: seq<Block>, tx: Tx, now: string)
    requires snapshot != [] && tx.recipient == OPERATOR
    ensures BalanceOf(Extend(c, snapshot, [tx], now), OPERATOR) == BalanceOf(snapshot, OPERATOR) + tx.amount
  {
    var b := NewBlock(c, Tip(snapshot), [tx], now);
    BalanceStep(snapshot, b, OPERATOR);
    SingleTxBlock(b, tx, OPERATOR);
  }

  /** Rounding to a cent commutes with adding whole cents. */
  lemma WholeCentsShift(micro: int, cents: int)
    ensures RoundCents(micro + 10_000 * cents) == RoundCents(micro) + 10_000 * cents
  {
    assert (micro + 10_000 * cents + 5_000) / 10_000 == (micro + 5_000) / 10_000 + cents;
  }

  /** A burn that passes its guards is covered by what is displayed. */
  lemma BurnIsCovered(snapshot: seq<Block>, amount: real, source: string, meta: Option<Meta>)
    requires BurnTx(snapshot, amount, source, meta).Some?
    ensures
      var tx := BurnTx(snapshot, amount, source, meta).value;
      tx.recipient == OPERATOR && tx.amount == -BurnedMicro(amount) && 0 < BurnedMicro(amount) <= Displayed(snapshot)
  {
  }

  /** Earning goes through exactly for positive amounts, under the caller's source and record, to the nearest micro-MIC. */
  lemma EarnIsNearest(source: string, amount: real, meta: Option<Meta>)
    ensures EarnTx(source, amount, meta).Some? <==> amount > 0.0
    ensures amount > 0.0 ==>
      var tx := EarnTx(source, amount, meta).value;
      && tx.source == source && tx.recipient == "terminal-operator" && tx.meta == meta
      && -0.5 < tx.amount as real - amount * 1_000_000.0 <= 0.5
  {
  }

  /** The whole number of cents nearest to the amount, halves upward. */
  ghost predicate NearestCents(amount: real, cents: int) {
    -0.5 < cents as real - amount * 100.0 <= 0.5
  }

  /**
   * Burning goes through exactly when the nearest whole number of cents is positive and no more than
   * what is displayed; it then takes exactly that from the operator, under the caller's source.
   */
  lemma BurnIsNearest(snapshot: seq<Block>, amount: real, source: string, meta: Option<Meta>, cents: int)
    requires NearestCents(amount, cents)
    ensures BurnTx(snapshot, amount, source, meta).Some? <==> 0 < 10_000 * cents <= RoundCents(BalanceOf(snapshot, OPERATOR))
    ensures 0 < 10_000 * cents <= RoundCents(BalanceOf(snapshot, OPERATOR)) ==>
      var tx := BurnTx(snapshot, amount, source, meta).value;
      && tx.amount == -10_000 * cents
      && tx.source == source && tx.recipient == "terminal-operator"
      && -5_000.0 <= tx.amount as real + amount * 1_000_000.0 < 5_000.0
  {
    var r := MathRound(amount * 100.0);
    assert -1.0 < (r - cents) as real < 1.0;
    assert r == cents;
  }

  /** The block a submitted transaction yields is the tip of the chain it leaves, and holds it alone. */
  lemma RecordedIsTip(c: Codec, before: Hook, snapshot: seq<Block>, tx: Option<Tx>, now: string)
    ensures tx == None || snapshot == [] ==> Recorded(c, snapshot, tx, now) == None && AfterSubmit(c, before, snapshot, tx, now) == before
    ensures tx.Some? && snapshot != [] ==>
      var after := AfterSubmit(c, before, snapshot, tx, now);
      after.chain != [] && Recorded(c, snapshot, tx, now) == Some(Tip(after.chain)) && TipHolds(c, after.chain, [tx.value], now)
  {
  }

  /** A burn's record is the caller's, marked as a burn whatever the caller said. */
  lemma BurnIsMarked(snapshot: seq<Block>, amount: real, source: string, meta: Option<Meta>, field: string)
    requires BurnTx(snapshot, amount, source, meta).Some?
    ensures
      var tx := BurnTx(snapshot, amount, source, meta).value;
      tx.meta.Some? && FieldOf(tx.meta.value, field) == if field == "burn" then Some(Flag(true)) else FieldOf(meta.GetOr([]), field)
  {
    SetFieldThenRead(meta.GetOr([]), "burn", Flag(true), field);
  }

  lemma SpendingShiftsDisplay(c: Codec, snapshot: seq<Block>, tx: Tx, cents: int, now: string)
    requires snapshot != [] && tx.recipient == OPERATOR && tx.amount == 10_000 * cents
    ensures Displayed(Extend(c, snapshot, [tx], now)) == Displayed(snapshot) + tx.amount
  {
    ExtendMovesBalance(c, snapshot, tx, now);
    WholeCentsShift(BalanceOf(snapshot, OPERATOR), cents);
  }

  /** A burn lowers the displayed balance of the chain it captured by exactly the burned cents. */
  lemma BurnLowersDisplayExactly(c: Codec, snapshot: seq<Block>, amount: real, source: string, meta: Option<Meta>, now: string)
    requires snapshot != [] && BurnTx(snapshot, amount, source, meta).Some?
    ensures
      var after := Extend(c, snapshot, [BurnTx(snapshot, amount, source, meta).value], now);
      Displayed(after) == Displayed(snapshot) - BurnedMicro(amount) >= 0
  {
    BurnIsCovered(snapshot, amount, source, meta);
    SpendingShiftsDisplay(c, snapshot, BurnTx(snapshot, amount, source, meta).value, -MathRound(amount * 100.0), now);
  }

  /** Nothing negative is shown, and the exact balance is at most half a cent below zero. */
  ghost predicate Solvent(chain: seq<Block>) {
    Displayed(chain) >= 0 && BalanceOf(chain, OPERATOR) >= -5_000
  }

  /**
   * From any chain whose displayed balance is not negative, no interleaving of earns and burns
   * ever stores one whose displayed balance is negative or whose exact balance is below -0.005.
   */
  lemma {:induction false} EveryStoredChainIsSolvent(c: Codec, start: seq<Block>, calls: seq<WalletCall>)
    requires Displayed(start) >= 0
    ensures AllSolvent(WalletRun(c, start, calls))
    decreases |calls|
  {
    if calls == [] {
    } else {
      var n := |calls| - 1;
      EveryStoredChainIsSolvent(c, start, calls[..n]);
      var earlier := Submitted(c, start, calls[..n]);
      var history, call := Run(c, start, earlier), calls[n];
      if call.base < |history| && TxOf(history[call.base], call).Some? {
        var tx := TxOf(history[call.base], call).value;
        RunStep(c, start, earlier, Call(call.base, [tx], call.now));
        NextStaysSolvent(c, history, call, tx);
      } else {
        assert earlier + [] == earlier;
      }
    }
  }

  ghost predicate AllSolvent(history: seq<seq<Block>>) {
    forall k :: 0 <= k < |history| ==> Solvent(history[k])
  }

  lemma NextStaysSolvent(c: Codec, history: seq<seq<Block>>, call: WalletCall, tx: Tx)
    requires AllSolvent(history)
    requires call.base < |history| && TxOf(history[call.base], call) == Some(tx)
    ensures AllSolvent(Next(c, history, Call(call.base, [tx], call.now)))
  {
    if history[call.base] != [] {
      StepStaysSolvent(c, history[call.base], call, tx);
    }
  }

  lemma StepStaysSolvent(c: Codec, snapshot: seq<Block>, call: WalletCall, tx: Tx)
    requires snapshot != [] && Solvent(snapshot) && TxOf(snapshot, call) == Some(tx)
    ensures Solvent(Extend(c, snapshot, [tx], call.now))
  {
    match call
    case Earn(_, _, _, _, _) => EarningStaysSolvent(c, snapshot, tx, call.now);
    case Burn(_, amount, source, meta, now) => BurnLowersDisplayExactly(c, snapshot, amount, source, meta, now);
  }

  lemma EarningStaysSolvent(c: Codec, snapshot: seq<Block>, tx: Tx, now: string)
    requires snapshot != [] && Solvent(snapshot) && tx.recipient == OPERATOR && tx.amount >= 0
    ensures Solvent(Extend(c, snapshot, [tx], now))
  {
    ExtendMovesBalance(c, snapshot, tx, now);
  }

  /** The freshly mined first chain meets the hypotheses: it is valid, indexed, and shows zero. */
  lemma GenesisStart(c: Codec, now: string)
    ensures ValidChain(c, [Genesis(c, now)]) && Indexed([Genesis(c, now)])
    ensures Displayed([Genesis(c, now)]) == 0
  {
    var g := Genesis(c, now);
    assert [g][..0] == [] && Flat([g]) == Flat([]) + EntriesOf(g);
    assert Flat([g]) == EntriesOf(g);
    SingleTxBlock(g, GENESIS_TX, OPERATOR);
  }

  /** Wallet runs store only valid chains when every search meets the prefix. */
  lemma WalletStoresValidChains(c: Codec, start: seq<Block>, calls: seq<WalletCall>)
    requires ValidChain(c, start) && Indexed(start)
    requires AllMet(c, start, Submitted(c, start, calls))
    ensures AllValid(c, WalletRun(c, start, calls))
  {
    EveryStoredChainIsValid(c, start, Submitted(c, start, calls));
  }
}
