/** The sha-conditioned write with one retry of `lib/github-state-cache.ts` (githubStateWriteJson). */
module GithubState {
  import opened Wrappers
  import opened Hashing

  /** The blob sha of a file's content; None when the file is missing. */
  function ShaOf(blob: Hash, content: Option<string>): Option<string> {
    if content == None then None else Some(blob(content.value))
  }

  /**
   * How the network treats one request. `Served`: the server handles it and the answer arrives.
   * `Refused`: an error status arrives. `Lost`: the fetch throws, or the answer to a read does not
   * parse. In both cases `handled` says whether the server had acted on the request all the same.
   */
  datatype Net = Served | Refused(handled: bool) | Lost(handled: bool)

  /** How the call ends; the rejection of a PUT that is returned without `await` passes the catch. */
  datatype Outcome = Returned(ok: bool) | Threw

  datatype Stage = Get1 | Put1 | Get2 | Put2 | Done(outcome: Outcome)

  /** A PUT of this call that took effect: what it replaced, and the sha it was conditioned on. */
  datatype Effect = Effect(replaced: Option<string>, readSha: Option<string>, seen: Option<string>)

  /**
   * The file and one call in progress: the sha of the last read and the content behind it (None when
   * the read found no file or no usable answer), the PUTs sent, those refused for a sha mismatch,
   * and those that took effect.
   */
  datatype State = State(
    file: Option<string>, stage: Stage, readSha: Option<string>, seen: Option<string>,
    puts: nat, conflicts: nat, effects: seq<Effect>)

  function Start(file: Option<string>): State {
    State(file, Get1, None, None, 0, 0, [])
  }

  /** The server applies a PUT only when its sha is the file's, or the file is missing and none is given. */
  predicate Matches(blob: Hash, s: State) {
    s.readSha == ShaOf(blob, s.file)
  }

  function AfterGet(blob: Hash, s: State, net: Net): State {
    match net
    case Lost(_) => s.(stage := Done(Returned(false)))
    case Refused(_) => s.(readSha := None, seen := None, stage := if s.stage == Get1 then Put1 else Put2)
    case Served => s.(readSha := ShaOf(blob, s.file), seen := s.file, stage := if s.stage == Get1 then Put1 else Put2)
  }

  function Applied(s: State, data: string): State {
    s.(file := Some(data), effects := s.effects + [Effect(s.file, s.readSha, s.seen)])
  }

  /** The server applies the PUT although its answer does not say so. */
  predicate HidesEffect(blob: Hash, s: State, net: Net) {
    !net.Served? && net.handled && Matches(blob, s)
  }

  function AfterPut(blob: Hash, data: string, s: State, net: Net): State {
    var sent := s.(puts := s.puts + 1);
    var result := if HidesEffect(blob, s, net) then Applied(sent, data) else sent;
    var failed := if s.stage == Put1 then Get2 else Done(Returned(false));
    match net
    case Lost(_) => result.(stage := Done(if s.stage == Put1 then Returned(false) else Threw))
    case Refused(_) => result.(stage := failed)
    case Served =>
      if Matches(blob, s) then Applied(sent, data).(stage := Done(Returned(true)))
      else sent.(conflicts := s.conflicts + 1, stage := failed)
  }

  function ClientStep(blob: Hash, data: string, s: State, net: Net): State {
    match s.stage
    case Done(_) => s
    case Get1 => AfterGet(blob, s, net)
    case Get2 => AfterGet(blob, s, net)
    case Put1 => AfterPut(blob, data, s, net)
    case Put2 => AfterPut(blob, data, s, net)
  }

  /** Other writers may put or delete anything at any moment between this call's requests. */
  datatype Step = Other(file: Option<string>) | Client(net: Net)

  function Next(blob: Hash, data: string, s: State, step: Step): State {
    match step
    case Other(file) => s.(file := file)
    case Client(net) => ClientStep(blob, data, s, net)
  }

  function Run(blob: Hash, data: string, s: State, steps: seq<Step>): State
    decreases |steps|
  {
    if steps == [] then s else Run(blob, data, Next(blob, data, s, steps[0]), steps[1..])
  }

  // ---- The code ----

  /** The remote file, as the Contents API exposes it. */
  class Repository {
    const blob: Hash
    var file: Option<string>

    constructor (blob: Hash, file: Option<string>)
      ensures this.blob == blob && this.file == file
    {
      this.blob := blob;
      this.file := file;
    }

    /** What other writers do before this call's next request. */
    method Interfere(others: seq<Option<string>>)
      modifies this
      ensures file == if others == [] then old(file) else others[|others| - 1]
    {
      if |others| > 0 {
        file := others[|others| - 1];
      }
    }

    method Get(net: Net) returns (threw: bool, sha: Option<string>)
      ensures threw == net.Lost?
      ensures sha == if net.Served? then ShaOf(blob, file) else None
    {
      threw := net.Lost?;
      sha := if net.Served? then ShaOf(blob, file) else None;
    }

    method Put(sha: Option<string>, data: string, net: Net) returns (threw: bool, ok: bool)
      modifies this
      ensures threw == net.Lost?
      ensures ok == (net.Served? && sha == ShaOf(blob, old(file)))
      ensures file == if sha == ShaOf(blob, old(file)) && (net.Served? || net.handled) then Some(data) else old(file)
    {
      threw := net.Lost?;
      var matches := sha == ShaOf(blob, file);
      ok := net.Served? && matches;
      if matches && (net.Served? || net.handled) {
        file := Some(data);
      }
    }
  }

  /** What happens around one request: other writers first, then the network. */
  datatype Turn = Turn(others: seq<Option<string>>, net: Net)

  function Steps(turns: seq<Turn>): seq<Step> {
    if turns == [] then []
    else seq(|turns[0].others|, i requires 0 <= i < |turns[0].others| => Other(turns[0].others[i])) + [Client(turns[0].net)] + Steps(turns[1..])
  }

  /** The file once the other writers of the turn are done. */
  function FileAt(t: Turn, file: Option<string>): Option<string> {
    if t.others == [] then file else t.others[|t.others| - 1]
  }

  function AfterTurn(blob: Hash, data: string, s: State, t: Turn): State {
    ClientStep(blob, data, s.(file := FileAt(t, s.file)), t.net)
  }

  function AfterTurns(blob: Hash, data: string, start: State, turns: seq<Turn>, k: nat): State
    requires k <= |turns|
  {
    if k == 0 then start else AfterTurn(blob, data, AfterTurns(blob, data, start, turns, k - 1), turns[k - 1])
  }

  datatype Attempted = GetThrew | PutThrew | PutFailed | PutOk

  /** One read of the sha and one PUT conditioned on it; `s` is the state the call is in. */
  method Attempt(repo: Repository, data: string, getTurn: Turn, putTurn: Turn, ghost s: State) returns (outcome: Attempted)
    requires s.file == repo.file && (s.stage == Get1 || s.stage == Get2)
    modifies repo
    ensures
      var g := AfterTurn(repo.blob, data, s, getTurn);
      outcome == GetThrew <==> g.stage == Done(Returned(false))
    ensures
      var g := AfterTurn(repo.blob, data, s, getTurn);
      outcome == GetThrew ==> g.file == repo.file
    ensures
      var p := AfterTurn(repo.blob, data, AfterTurn(repo.blob, data, s, getTurn), putTurn);
      outcome != GetThrew ==>
        && p.file == repo.file
        && (outcome == PutOk <==> p.stage == Done(Returned(true)))
        && (outcome == PutThrew ==> p.stage == Done(if s.stage == Get1 then Returned(false) else Threw))
        && (outcome == PutFailed ==> p.stage == if s.stage == Get1 then Get2 else Done(Returned(false)))
  {
    repo.Interfere(getTurn.others);
    var threw, sha := repo.Get(getTurn.net);
    if threw {
      return GetThrew;
    }
    repo.Interfere(putTurn.others);
    var ok;
    threw, ok := repo.Put(sha, data, putTurn.net);
    return if threw then PutThrew else if ok then PutOk else PutFailed;
  }

  /**
   * One call against any interference: nothing without a configured repository and token, else the
   * first `used` turns, ending exactly as those turns do. A second PUT that throws is not caught.
   */
  method WriteJson(repo: Repository, configured: bool, data: string, turns: seq<Turn>) returns (outcome: Outcome, used: nat)
    requires |turns| == 4
    modifies repo
    ensures used <= 4
    ensures !configured ==> outcome == Returned(false) && used == 0 && repo.file == old(repo.file)
    ensures configured ==>
      var end := AfterTurns(repo.blob, data, Start(old(repo.file)), turns, used);
      end.stage == Done(outcome) && end.file == repo.file
  {
    if !configured {
      return Returned(false), 0;
    }
    ghost var start := Start(repo.file);
    var first := Attempt(repo, data, turns[0], turns[1], start);
    assert AfterTurns(repo.blob, data, start, turns, 1) == AfterTurn(repo.blob, data, start, turns[0]);
    if first == GetThrew {
      return Returned(false), 1;
    }
    if first == PutThrew {
      return Returned(false), 2;
    }
    if first == PutOk {
      return Returned(true), 2;
    }
    ghost var s := AfterTurns(repo.blob, data, start, turns, 2);
    var second := Attempt(repo, data, turns[2], turns[3], s);
    assert AfterTurns(repo.blob, data, start, turns, 3) == AfterTurn(repo.blob, data, s, turns[2]);
    if second == GetThrew {
      return Returned(false), 3;
    }
    return if second == PutThrew then Threw else Returned(second == PutOk), 4;
  }

  /** Taking turns is one of the interleavings. */
  lemma {:induction false} TurnsAreARun(blob: Hash, data: string, start: State, turns: seq<Turn>, k: nat)
    requires k <= |turns|
    ensures AfterTurns(blob, data, start, turns, k) == Run(blob, data, start, Steps(turns[..k]))
    decreases k
  {
    if k == 0 {
    } else {
      TurnsAreARun(blob, data, start, turns, k - 1);
      TurnRuns(blob, data, start, turns, k - 1);
    }
  }

  lemma {:induction false} RunConcat(blob: Hash, data: string, s: State, a: seq<Step>, b: seq<Step>)
    ensures Run(blob, data, s, a + b) == Run(blob, data, Run(blob, data, s, a), b)
    decreases |a|
  {
    if a == [] {
      assert a + b == b;
    } else {
      assert (a + b)[0] == a[0] && (a + b)[1..] == a[1..] + b;
      RunConcat(blob, data, Next(blob, data, s, a[0]), a[1..], b);
    }
  }

  lemma {:induction false} OthersRun(blob: Hash, data: string, s: State, steps: seq<Step>)
    requires forall i :: 0 <= i < |steps| ==> steps[i].Other?
    ensures Run(blob, data, s, steps) == if steps == [] then s else s.(file := steps[|steps| - 1].file)
    decreases |steps|
  {
    if steps == [] {
    } else {
      OthersRun(blob, data, Next(blob, data, s, steps[0]), steps[1..]);
    }
  }

  lemma {:induction false} StepsConcat(a: seq<Turn>, b: seq<Turn>)
    ensures Steps(a + b) == Steps(a) + Steps(b)
    decreases |a|
  {
    if a == [] {
      assert a + b == b;
    } else {
      assert (a + b)[0] == a[0] && (a + b)[1..] == a[1..] + b;
      StepsConcat(a[1..], b);
    }
  }

  lemma TurnRuns(blob: Hash, data: string, start: State, turns: seq<Turn>, k: nat)
    requires k < |turns|
    ensures Run(blob, data, start, Steps(turns[..k + 1])) == AfterTurn(blob, data, Run(blob, data, start, Steps(turns[..k])), turns[k])
  {
    var t, s := turns[k], Run(blob, data, start, Steps(turns[..k]));
    assert turns[..k + 1] == turns[..k] + [t];
    StepsConcat(turns[..k], [t]);
    RunConcat(blob, data, start, Steps(turns[..k]), Steps([t]));
    var others := seq(|t.others|, i requires 0 <= i < |t.others| => Other(t.others[i]));
    assert Steps([t][1..]) == [];
    assert Steps([t]) == others + [Client(t.net)];
    RunConcat(blob, data, s, others, [Client(t.net)]);
    OthersRun(blob, data, s, others);
    var u := Run(blob, data, s, others);
    assert Run(blob, data, u, [Client(t.net)]) == Run(blob, data, Next(blob, data, u, Client(t.net)), []);
  }

  // ---- Against arbitrary concurrent writers ----

  function PutsBefore(stage: Stage): nat {
    match stage
    case Get1 => 0
    case Put1 => 0
    case Get2 => 1
    case Put2 => 1
    case Done(_) => 2
  }

  /** Kept by every step of every interleaving. */
  ghost predicate Safe(blob: Hash, s: State) {
    && s.puts <= PutsBefore(s.stage)
    && (s.readSha.Some? ==> s.readSha == ShaOf(blob, s.seen))
    && |s.effects| <= s.puts
    && (forall i :: 0 <= i < |s.effects| ==> Conditioned(blob, s.effects[i]))
  }

  /** The replaced version is the one whose sha was read last, or there was no file. */
  predicate Conditioned(blob: Hash, e: Effect) {
    && ShaOf(blob, e.replaced) == e.readSha
    && (e.readSha.Some? ==> ShaOf(blob, e.seen) == e.readSha)
  }

  lemma {:induction false} SafeAlways(blob: Hash, data: string, s: State, steps: seq<Step>)
    requires Safe(blob, s)
    ensures Safe(blob, Run(blob, data, s, steps))
    decreases |steps|
  {
    if steps == [] {
    } else {
      StepIsSafe(blob, data, s, steps[0]);
      SafeAlways(blob, data, Next(blob, data, s, steps[0]), steps[1..]);
    }
  }

  lemma StepIsSafe(blob: Hash, data: string, s: State, step: Step)
    requires Safe(blob, s)
    ensures Safe(blob, Next(blob, data, s, step))
  {
    if step.Client? && (s.stage == Put1 || s.stage == Put2) {
      assert Matches(blob, s) ==> Conditioned(blob, Effect(s.file, s.readSha, s.seen));
    }
  }

  /**
   * However other writers interleave, a call sends at most two PUTs, and each that takes effect
   * replaced content with the sha this call read last, or created a missing file. So the content it
   * replaced is the content it had seen, unless the two are a sha collision.
   */
  lemma NoSilentOverwrite(blob: Hash, data: string, file: Option<string>, steps: seq<Step>)
    ensures
      var end := Run(blob, data, Start(file), steps);
      && |end.effects| <= end.puts <= 2
      && forall i :: 0 <= i < |end.effects| ==>
           var e := end.effects[i];
           e.replaced == None || e.replaced == e.seen || (e.seen.Some? && CollisionBetween(blob, {e.replaced.value}, {e.seen.value}))
  {
    SafeAlways(blob, data, Start(file), steps);
    var end := Run(blob, data, Start(file), steps);
    forall i | 0 <= i < |end.effects|
      ensures
        var e := end.effects[i];
        e.replaced == None || e.replaced == e.seen || (e.seen.Some? && CollisionBetween(blob, {e.replaced.value}, {e.seen.value}))
    {
      var e := end.effects[i];
      assert Conditioned(blob, e);
      if e.replaced.Some? && e.seen.Some? && e.replaced != e.seen {
        assert e.replaced.value in {e.replaced.value} && e.seen.value in {e.seen.value};
      }
    }
  }

  /** How many PUTs of the run took effect without an answer that says so. */
  function Hidden(blob: Hash, data: string, s: State, steps: seq<Step>): nat
    decreases |steps|
  {
    if steps == [] then 0
    else
      var here := steps[0].Client? && (s.stage == Put1 || s.stage == Put2) && HidesEffect(blob, s, steps[0].net);
      (if here then 1 else 0) + Hidden(blob, data, Next(blob, data, s, steps[0]), steps[1..])
  }

  /** What the answers told the caller: one effect when the call returned true, none otherwise. */
  function Reported(stage: Stage): nat {
    if stage == Done(Returned(true)) then 1 else 0
  }

  lemma {:induction false} EffectsAddUp(blob: Hash, data: string, s: State, steps: seq<Step>)
    ensures
      var end := Run(blob, data, s, steps);
      |end.effects| - Reported(end.stage) == |s.effects| - Reported(s.stage) + Hidden(blob, data, s, steps)
    decreases |steps|
  {
    if steps == [] {
    } else {
      EffectsAddUp(blob, data, Next(blob, data, s, steps[0]), steps[1..]);
    }
  }

  /**
   * In every interleaving the effects are the reported one and the hidden ones, no others. So a call
   * that ended reports its effects rightly exactly when no answer hid one, and true is never wrong.
   */
  lemma ResultTellsEffectsExactly(blob: Hash, data: string, file: Option<string>, steps: seq<Step>)
    ensures
      var end, hidden := Run(blob, data, Start(file), steps), Hidden(blob, data, Start(file), steps);
      && |end.effects| == Reported(end.stage) + hidden
      && (|end.effects| == Reported(end.stage) <==> hidden == 0)
      && ((end.stage == Done(Returned(true)) <==> end.effects != []) <==> (end.stage == Done(Returned(true)) || hidden == 0))
  {
    EffectsAddUp(blob, data, Start(file), steps);
  }

  /**
   * A request changes the file only by an effect of this call, which leaves the call's data there;
   * every effect does, and records the content it replaced.
   */
  lemma EffectLeavesData(blob: Hash, data: string, s: State, net: Net)
    ensures
      var t := ClientStep(blob, data, s, net);
      && (t.effects == s.effects ==> t.file == s.file)
      && (t.effects != s.effects ==>
            && t.file == Some(data)
            && |t.effects| == |s.effects| + 1 && s.effects <= t.effects
            && t.effects[|s.effects|] == Effect(s.file, s.readSha, s.seen))
  {
  }

  predicate AllServed(steps: seq<Step>) {
    forall i :: 0 <= i < |steps| ==> steps[i].Other? || steps[i] == Client(Served)
  }

  lemma {:induction false} ConflictsCounted(blob: Hash, data: string, s: State, steps: seq<Step>)
    requires AllServed(steps)
    requires s.stage == Done(Returned(true)) || s.conflicts == PutsBefore(s.stage)
    ensures
      var end := Run(blob, data, s, steps);
      end.stage == Done(Returned(true)) || end.conflicts == PutsBefore(end.stage)
    decreases |steps|
  {
    if steps == [] {
    } else {
      assert AllServed(steps[1..]) by {
        assert forall i :: 0 <= i < |steps| - 1 ==> steps[1..][i] == steps[i + 1];
      }
      ConflictsCounted(blob, data, Next(blob, data, s, steps[0]), steps[1..]);
    }
  }

  /** On a working network the call fails only after two PUTs each met a file changed since its read. */
  lemma FailureNeedsTwoConflicts(blob: Hash, data: string, file: Option<string>, steps: seq<Step>)
    requires AllServed(steps)
    ensures
      var end := Run(blob, data, Start(file), steps);
      end.stage.Done? && end.stage != Done(Returned(true)) ==> end.conflicts == 2
  {
    ConflictsCounted(blob, data, Start(file), steps);
  }

  /** The first PUT got an answer, and it was a failure: a sha mismatch or any error status. */
  predicate FirstPutFails(blob: Hash, file: Option<string>, turns: seq<Turn>)
    requires |turns| == 4
  {
    var read := FileAt(turns[0], file);
    var sha := if turns[0].net.Served? then ShaOf(blob, read) else None;
    || turns[1].net.Refused?
    || (turns[1].net.Served? && sha != ShaOf(blob, FileAt(turns[1], read)))
  }

  lemma FourTurns(blob: Hash, data: string, file: Option<string>, turns: seq<Turn>)
    requires |turns| == 4
    ensures
      var second := AfterTurn(blob, data, AfterTurn(blob, data, Start(file), turns[0]), turns[1]);
      AfterTurns(blob, data, Start(file), turns, 4) == AfterTurn(blob, data, AfterTurn(blob, data, second, turns[2]), turns[3])
  {
    assert AfterTurns(blob, data, Start(file), turns, 1) == AfterTurn(blob, data, Start(file), turns[0]);
    assert AfterTurns(blob, data, Start(file), turns, 2) == AfterTurn(blob, data, AfterTurns(blob, data, Start(file), turns, 1), turns[1]);
    assert AfterTurns(blob, data, Start(file), turns, 3) == AfterTurn(blob, data, AfterTurns(blob, data, Start(file), turns, 2), turns[2]);
  }

  /** Nobody put another content between the read and the PUT of an attempt that found this file. */
  predicate Undisturbed(blob: Hash, file: Option<string>, getTurn: Turn, putTurn: Turn) {
    ShaOf(blob, FileAt(getTurn, file)) == ShaOf(blob, FileAt(putTurn, FileAt(getTurn, file)))
  }

  predicate AllServedTurns(turns: seq<Turn>) {
    forall i :: 0 <= i < |turns| ==> turns[i].net.Served?
  }

  lemma FirstAttemptServed(blob: Hash, data: string, file: Option<string>, turns: seq<Turn>)
    requires |turns| == 4 && AllServedTurns(turns)
    ensures
      var second := AfterTurn(blob, data, AfterTurn(blob, data, Start(file), turns[0]), turns[1]);
      if Undisturbed(blob, file, turns[0], turns[1]) then second.stage == Done(Returned(true))
      else second.stage == Get2 && second.file == FileAt(turns[1], FileAt(turns[0], file))
  {
  }

  lemma SecondAttemptServed(blob: Hash, data: string, s: State, getTurn: Turn, putTurn: Turn)
    requires s.stage == Get2 && getTurn.net.Served? && putTurn.net.Served?
    ensures AfterTurn(blob, data, AfterTurn(blob, data, s, getTurn), putTurn).stage
         == Done(Returned(Undisturbed(blob, s.file, getTurn, putTurn)))
  {
  }

  /** On a working network the call returns true exactly when one of its two attempts was undisturbed. */
  lemma SucceedsExactly(blob: Hash, data: string, file: Option<string>, turns: seq<Turn>)
    requires |turns| == 4 && AllServedTurns(turns)
    ensures AfterTurns(blob, data, Start(file), turns, 4).stage == Done(Returned(
      || Undisturbed(blob, file, turns[0], turns[1])
      || Undisturbed(blob, FileAt(turns[1], FileAt(turns[0], file)), turns[2], turns[3])))
  {
    FourTurns(blob, data, file, turns);
    FirstAttemptServed(blob, data, file, turns);
    var second := AfterTurn(blob, data, AfterTurn(blob, data, Start(file), turns[0]), turns[1]);
    if second.stage == Get2 {
      SecondAttemptServed(blob, data, second, turns[2], turns[3]);
    }
  }

  lemma FirstAttemptEnds(blob: Hash, data: string, file: Option<string>, turns: seq<Turn>)
    requires |turns| == 4
    ensures
      var second := AfterTurn(blob, data, AfterTurn(blob, data, Start(file), turns[0]), turns[1]);
      && (second.stage == Get2 <==> !turns[0].net.Lost? && FirstPutFails(blob, file, turns))
      && (if second.stage == Get2 then second.puts == 1 else second.puts <= 1 && second.stage.Done? && second.stage.outcome.Returned?)
  {
  }

  lemma SecondAttemptEnds(blob: Hash, data: string, s: State, getTurn: Turn, putTurn: Turn)
    requires s.puts <= 1
    requires if s.stage == Get2 then s.puts == 1 else s.stage.Done? && s.stage.outcome.Returned?
    ensures
      var end := AfterTurn(blob, data, AfterTurn(blob, data, s, getTurn), putTurn);
      && (end.puts == 2 <==> s.stage == Get2 && !getTurn.net.Lost?)
      && (end.stage == Done(Threw) <==> end.puts == 2 && putTurn.net.Lost?)
  {
  }

  /**
   * A second PUT is sent exactly when both reads got an answer and the first PUT was answered with a
   * failure, of any kind: not only with the 409 the source's comment names.
   */
  lemma RetriedExactly(blob: Hash, data: string, file: Option<string>, turns: seq<Turn>)
    requires |turns| == 4
    ensures AfterTurns(blob, data, Start(file), turns, 4).puts == 2
       <==> !turns[0].net.Lost? && FirstPutFails(blob, file, turns) && !turns[2].net.Lost?
  {
    FourTurns(blob, data, file, turns);
    FirstAttemptEnds(blob, data, file, turns);
    var second := AfterTurn(blob, data, AfterTurn(blob, data, Start(file), turns[0]), turns[1]);
    SecondAttemptEnds(blob, data, second, turns[2], turns[3]);
  }

  /** A transport error of the second PUT rejects the call, which documents that it returns false. */
  lemma ThrowsExactly(blob: Hash, data: string, file: Option<string>, turns: seq<Turn>)
    requires |turns| == 4
    ensures AfterTurns(blob, data, Start(file), turns, 4).stage == Done(Threw)
       <==> !turns[0].net.Lost? && FirstPutFails(blob, file, turns) && !turns[2].net.Lost? && turns[3].net.Lost?
  {
    FourTurns(blob, data, file, turns);
    FirstAttemptEnds(blob, data, file, turns);
    var second := AfterTurn(blob, data, AfterTurn(blob, data, Start(file), turns[0]), turns[1]);
    SecondAttemptEnds(blob, data, second, turns[2], turns[3]);
  }
}
