/**
 * The review durability sync, `scripts/track-r-p3-review-durability-sync.ts`, with the keyed
 * find and upsert of `lib/watchdog/batchRepair/p3PacketReviewRegistry.ts`.
 */
module DurabilitySync {
  import opened Wrappers
  import opened Text

  datatype Verdict = Adopt | Challenge | Overturn

  /** A lane's review status; `Final` holds the three terminal verdicts. */
  datatype LaneStatus = Awaiting | LaneIntakeVerified | Final(verdict: Verdict)

  datatype HumanStatus = AwaitingHuman | HumanPending | Approved | Rejected

  datatype PacketStatus =
    | Discovered | IntakeVerified | AwaitingZeus | AwaitingEve | AwaitingHumanReview
    | Challenged | AdoptedForHandoff | Superseded

  datatype Entry = Entry(
    runId: string,
    packetHash: string,
    journalId: string,
    journalHash: string,
    commit: string,
    captureId: string,
    status: PacketStatus,
    executionAuthorized: bool,
    discoveredAt: string,
    intakeVerifiedAt: Option<string>,
    supersedes: Option<string>,
    supersededBy: Option<string>,
    zeus: LaneStatus,
    eve: LaneStatus,
    human: HumanStatus,
    zeusPath: Option<string>,
    evePath: Option<string>,
    zeusJournalId: Option<string>,
    eveJournalId: Option<string>,
    journalsCompleted: Option<bool>,
    lastIntakeAt: Option<string>)

  type Registry = seq<Entry>

  /** The verified identity of the current candidate packet. */
  datatype Context = Context(runId: string, packetHash: string, journalId: string, journalHash: string, commit: string, captureId: string)

  datatype RowStatus = CandidateRow | SupersededRow | InvalidRow

  datatype Row = Row(runId: string, packetHash: string, status: RowStatus, supersededBy: Option<string>)

  datatype Issued = Issued(journalId: string, journalHash: string, commit: string)

  /**
   * The committed evidence of one run: the intake's candidate and historical packets, the issued
   * registry by run id (empty when unreadable), and each lane's validated verdict (None while it is
   * PENDING or could not be resolved).
   */
  datatype Evidence = Evidence(
    candidate: Context, historical: seq<Row>, issued: map<string, Issued>,
    zeusVerdict: Option<Verdict>, eveVerdict: Option<Verdict>)

  datatype Lane = Zeus | Eve

  const UNKNOWN := "unknown"
  const REVIEW_DIRECTORY: string := "docs/epicon/cycles/C-408/track-r-p3-review/"
  const REVIEW_FILE: string := "_P3_PACKET_REVIEW.md"

  function LaneName(lane: Lane): string {
    if lane == Zeus then "ZEUS" else "EVE"
  }

  function ArtifactPath(runId: string, lane: Lane): string {
    REVIEW_DIRECTORY + runId + "/" + LaneName(lane) + REVIEW_FILE
  }

  // ---- Registry rows ----

  function Find(reg: Registry, runId: string): Option<Entry> {
    if reg == [] then None
    else if reg[0].runId == runId then Some(reg[0])
    else Find(reg[1..], runId)
  }

  /** Replaces the first entry with the same run id, or appends. */
  function Upsert(reg: Registry, e: Entry): Registry {
    if reg == [] then [e]
    else if reg[0].runId == e.runId then [e] + reg[1..]
    else [reg[0]] + Upsert(reg[1..], e)
  }

  function LaneStatusOf(kept: Option<LaneStatus>, verdict: Option<Verdict>): LaneStatus {
    if kept.Some? && kept.value.Final? then kept.value
    else if verdict.Some? then Final(verdict.value)
    else Awaiting
  }

  /** The existing entry, when it is for the same packet. */
  function SamePacket(existing: Option<Entry>, packetHash: string): Option<Entry> {
    if existing.Some? && existing.value.packetHash == packetHash then existing else None
  }

  /** The entry already records a completed intake with exactly these statuses. */
  predicate Reflects(e: Entry, zeus: LaneStatus, eve: LaneStatus, human: HumanStatus) {
    && e.status == IntakeVerified
    && e.journalsCompleted == Some(true)
    && e.zeus == zeus
    && e.eve == eve
    && e.human == human
  }

  function CandidateEntry(e: Evidence, now: string, existing: Option<Entry>): Entry {
    var context := e.candidate;
    var same := SamePacket(existing, context.packetHash);
    var zeus := LaneStatusOf(if same.Some? then Some(same.value.zeus) else None, e.zeusVerdict);
    var eve := LaneStatusOf(if same.Some? then Some(same.value.eve) else None, e.eveVerdict);
    var human := if same.Some? && (same.value.human == Approved || same.value.human == Rejected) then same.value.human else AwaitingHuman;
    var reflected := same.Some? && Reflects(same.value, zeus, eve, human);
    Entry(
      context.runId, context.packetHash, context.journalId, context.journalHash, context.commit, context.captureId,
      IntakeVerified, false,
      if same.Some? then same.value.discoveredAt else now,
      Some(if same.Some? then same.value.intakeVerifiedAt.GetOr(now) else now),
      None, None, zeus, eve, human,
      Some(ArtifactPath(context.runId, Zeus)), Some(ArtifactPath(context.runId, Eve)),
      None, None, Some(true),
      if reflected then same.value.lastIntakeAt else Some(now))
  }

  function SupersededEntry(e: Evidence, row: Row, now: string, existing: Option<Entry>): Entry {
    var issued := if row.runId in e.issued then Some(e.issued[row.runId]) else None;
    Entry(
      row.runId, row.packetHash,
      if issued.Some? then issued.value.journalId else if existing.Some? then existing.value.journalId else UNKNOWN,
      if issued.Some? then issued.value.journalHash else if existing.Some? then existing.value.journalHash else UNKNOWN,
      if issued.Some? then issued.value.commit else if existing.Some? then existing.value.commit else UNKNOWN,
      if existing.Some? then existing.value.captureId else UNKNOWN,
      Superseded, false,
      if existing.Some? then existing.value.discoveredAt else now,
      None, None, row.supersededBy,
      if existing.Some? then existing.value.zeus else Awaiting,
      if existing.Some? then existing.value.eve else Awaiting,
      if existing.Some? then existing.value.human else AwaitingHuman,
      None, None, None, None,
      Some(if existing.Some? then existing.value.journalsCompleted.GetOr(false) else false),
      Some(if existing.Some? then existing.value.lastIntakeAt.GetOr(now) else now))
  }

  // ---- Receipts ----

  /**
   * The fixed wording of a receipt: everything before the timestamp's label, which names the lane
   * and the packet identity, and everything after the timestamp.
   */
  datatype Wording = Wording(head: (Lane, Context) -> string, tail: Lane -> string)

  function Render(w: Wording, lane: Lane, c: Context, generatedAt: string): string {
    w.head(lane, c) + MARKER + " " + generatedAt + w.tail(lane)
  }

  function ReceiptFile(w: Wording, lane: Lane, c: Context, generatedAt: string): string {
    Render(w, lane, c, generatedAt) + "\n"
  }

  predicate UpToDate(w: Wording, receipts: map<string, string>, lane: Lane, c: Context) {
    var path := ArtifactPath(c.runId, lane);
    && path in receipts
    && var found := FirstGeneratedAt(receipts[path]);
       found.Some? && ReceiptFile(w, lane, c, found.value) == receipts[path]
  }

  // ---- One run ----

  function FoldRows(e: Evidence, rows: seq<Row>, now: string, reg: Registry): Registry {
    if rows == [] then reg
    else
      var earlier := FoldRows(e, rows[..|rows| - 1], now, reg);
      var row := rows[|rows| - 1];
      if row.status != SupersededRow then earlier
      else Upsert(earlier, SupersededEntry(e, row, now, Find(earlier, row.runId)))
  }

  function SyncRegistry(e: Evidence, now: string, reg: Registry): Registry {
    FoldRows(e, e.historical, now, Upsert(reg, CandidateEntry(e, now, Find(reg, e.candidate.runId))))
  }

  function SyncReceipt(w: Wording, receipts: map<string, string>, lane: Lane, c: Context, now: string): map<string, string> {
    if UpToDate(w, receipts, lane, c) then receipts
    else receipts[ArtifactPath(c.runId, lane) := ReceiptFile(w, lane, c, now)]
  }

  function SyncReceipts(w: Wording, e: Evidence, now: string, receipts: map<string, string>): map<string, string> {
    SyncReceipt(w, SyncReceipt(w, receipts, Zeus, e.candidate, now), Eve, e.candidate, now)
  }

  /** An `--expect-…` flag that is given, and not empty, must match. */
  predicate Mismatch(expected: Option<string>, actual: string) {
    expected.Some? && expected.value != "" && expected.value != actual
  }

  predicate Blocked(intake: Option<Evidence>, expectRunId: Option<string>, expectPacketHash: Option<string>, registry: Option<Registry>) {
    || intake == None
    || Mismatch(expectRunId, intake.value.candidate.runId)
    || Mismatch(expectPacketHash, intake.value.candidate.packetHash)
    || registry == None
  }

  /** The number of files a lane's receipt has to be written to. */
  function Stale(w: Wording, receipts: map<string, string>, lane: Lane, c: Context): nat {
    if UpToDate(w, receipts, lane, c) then 0 else 1
  }

  lemma PathsDiffer(runId: string)
    ensures ArtifactPath(runId, Zeus) != ArtifactPath(runId, Eve)
  {
    assert |ArtifactPath(runId, Zeus)| == |ArtifactPath(runId, Eve)| + 1;
  }

  /** Writing one lane's receipt leaves the other's as current or stale as it was. */
  lemma LanesAreIndependent(w: Wording, receipts: map<string, string>, c: Context, now: string)
    ensures UpToDate(w, SyncReceipt(w, receipts, Zeus, c, now), Eve, c) <==> UpToDate(w, receipts, Eve, c)
  {
    PathsDiffer(c.runId);
  }

  /** The checkout the script reads and writes; a registry that cannot be read is None. */
  class Checkout {
    const w: Wording
    var registry: Option<Registry>
    var receipts: map<string, string>

    constructor (w: Wording, registry: Option<Registry>, receipts: map<string, string>)
      ensures this.w == w && this.registry == registry && this.receipts == receipts
    {
      this.w := w;
      this.registry := registry;
      this.receipts := receipts;
    }

    method SyncEntries(e: Evidence, now: string)
      requires registry.Some?
      modifies this`registry
      ensures registry == Some(SyncRegistry(e, now, old(registry).value))
    {
      var updated := registry.value;
      var existingCandidate := Find(updated, e.candidate.runId);
      updated := Upsert(updated, CandidateEntry(e, now, existingCandidate));
      ghost var first := updated;
      for k := 0 to |e.historical|
        invariant updated == FoldRows(e, e.historical[..k], now, first)
      {
        var row := e.historical[k];
        assert e.historical[..k + 1][..k] == e.historical[..k];
        if row.status != SupersededRow {
          continue;
        }
        var existing := Find(updated, row.runId);
        updated := Upsert(updated, SupersededEntry(e, row, now, existing));
      }
      assert e.historical[..|e.historical|] == e.historical;
      registry := Some(updated);
    }

    method WriteReceipt(lane: Lane, c: Context, now: string) returns (wrote: bool)
      modifies this`receipts
      ensures receipts == SyncReceipt(w, old(receipts), lane, c, now)
      ensures wrote <==> !UpToDate(w, old(receipts), lane, c)
    {
      wrote := !UpToDate(w, receipts, lane, c);
      if wrote {
        receipts := receipts[ArtifactPath(c.runId, lane) := ReceiptFile(w, lane, c, now)];
      }
    }

    /** `writes` counts the receipt files written. */
    method Sync(intake: Option<Evidence>, expectRunId: Option<string>, expectPacketHash: Option<string>, now: string)
      returns (exit: int, writes: nat)
      modifies this
      ensures
        if Blocked(intake, expectRunId, expectPacketHash, old(registry)) then
          exit == 1 && writes == 0 && registry == old(registry) && receipts == old(receipts)
        else
          && exit == 0
          && registry == Some(SyncRegistry(intake.value, now, old(registry).value))
          && receipts == SyncReceipts(w, intake.value, now, old(receipts))
          && writes == Stale(w, old(receipts), Zeus, intake.value.candidate) + Stale(w, old(receipts), Eve, intake.value.candidate)
    {
      writes := 0;
      if intake == None {
        return 1, 0;
      }
      var e := intake.value;
      if Mismatch(expectRunId, e.candidate.runId) {
        return 1, 0;
      }
      if Mismatch(expectPacketHash, e.candidate.packetHash) {
        return 1, 0;
      }
      if registry == None {
        return 1, 0;
      }
      SyncEntries(e, now);
      LanesAreIndependent(w, receipts, e.candidate, now);
      var zeus := WriteReceipt(Zeus, e.candidate, now);
      var eve := WriteReceipt(Eve, e.candidate, now);
      writes := (if zeus then 1 else 0) + (if eve then 1 else 0);
      exit := 0;
    }
  }

  /** A sync goes through exactly when intake and registry are readable and what was expected is there, if anything was. */
  lemma GoesThroughExactly(
      intake: Option<Evidence>, expectRunId: Option<string>, expectPacketHash: Option<string>, registry: Option<Registry>)
    ensures !Blocked(intake, expectRunId, expectPacketHash, registry) <==>
      && intake.Some? && registry.Some?
      && expectRunId in {None, Some(""), Some(intake.value.candidate.runId)}
      && expectPacketHash in {None, Some(""), Some(intake.value.candidate.packetHash)}
  {
  }

  // ---- Find and upsert ----

  lemma {:induction false} UpsertThenFind(reg: Registry, e: Entry, runId: string)
    ensures Find(Upsert(reg, e), runId) == if runId == e.runId then Some(e) else Find(reg, runId)
    decreases |reg|
  {
    if reg == [] || reg[0].runId == e.runId {
    } else {
      UpsertThenFind(reg[1..], e, runId);
    }
  }

  lemma {:induction false} UpsertOfFoundChangesNothing(reg: Registry, e: Entry)
    requires Find(reg, e.runId) == Some(e)
    ensures Upsert(reg, e) == reg
    decreases |reg|
  {
    if reg[0].runId == e.runId {
      assert reg == [e] + reg[1..];
    } else {
      UpsertOfFoundChangesNothing(reg[1..], e);
      assert reg == [reg[0]] + reg[1..];
    }
  }

  lemma {:induction false} FindHasRunId(reg: Registry, runId: string)
    requires Find(reg, runId).Some?
    ensures Find(reg, runId).value.runId == runId
    decreases |reg|
  {
    if reg[0].runId == runId {
    } else {
      FindHasRunId(reg[1..], runId);
    }
  }

  /** An earlier entry has the same run id, so no lookup reaches this one. */
  predicate Shadowed(reg: Registry, i: nat)
    requires i < |reg|
  {
    exists j :: 0 <= j < i && reg[j].runId == reg[i].runId
  }

  /** The same run ids at the same places, and the same shadowed entries. */
  predicate SameShape(a: Registry, b: Registry) {
    && |a| == |b|
    && (forall i :: 0 <= i < |a| ==> a[i].runId == b[i].runId)
    && (forall i :: 0 <= i < |a| && Shadowed(a, i) ==> a[i] == b[i])
  }

  lemma SameShapeTransitive(a: Registry, b: Registry, c: Registry)
    requires SameShape(a, b) && SameShape(b, c)
    ensures SameShape(a, c)
  {
    forall i | 0 <= i < |a| && Shadowed(a, i)
      ensures a[i] == c[i]
    {
      var j :| 0 <= j < i && a[j].runId == a[i].runId;
      assert b[j].runId == b[i].runId;
    }
  }

  lemma {:induction false} FindsUnshadowed(reg: Registry, i: nat)
    requires i < |reg| && !Shadowed(reg, i)
    ensures Find(reg, reg[i].runId) == Some(reg[i])
    decreases |reg|
  {
    if i == 0 {
    } else {
      assert reg[0].runId != reg[i].runId;
      forall j | 0 <= j < i - 1
        ensures reg[1..][j].runId != reg[1..][i - 1].runId
      {
        assert reg[j + 1].runId != reg[i].runId;
      }
      FindsUnshadowed(reg[1..], i - 1);
    }
  }

  /** Registries of one shape that answer every lookup alike are equal. */
  lemma SameLookupsSameRegistry(a: Registry, b: Registry)
    requires SameShape(a, b)
    requires forall id :: Find(a, id) == Find(b, id)
    ensures a == b
  {
    forall i | 0 <= i < |a|
      ensures a[i] == b[i]
    {
      if Shadowed(a, i) {
      } else {
        assert forall j :: 0 <= j < i ==> a[j].runId == b[j].runId;
        assert !Shadowed(b, i);
        FindsUnshadowed(a, i);
        FindsUnshadowed(b, i);
      }
    }
  }

  lemma {:induction false} UpsertAppendsNew(reg: Registry, e: Entry)
    requires Find(reg, e.runId) == None
    ensures Upsert(reg, e) == reg + [e]
    decreases |reg|
  {
    if reg == [] {
    } else {
      UpsertAppendsNew(reg[1..], e);
      assert reg == [reg[0]] + reg[1..];
    }
  }

  /** An upsert of a known run replaces the one entry lookups reach. */
  lemma {:induction false} UpsertReplacesFound(reg: Registry, e: Entry) returns (p: nat)
    requires Find(reg, e.runId).Some?
    ensures p < |reg| && reg[p].runId == e.runId && !Shadowed(reg, p)
    ensures Upsert(reg, e) == reg[p := e]
    decreases |reg|
  {
    if reg[0].runId == e.runId {
      p := 0;
    } else {
      var q := UpsertReplacesFound(reg[1..], e);
      p := q + 1;
      forall j | 0 <= j < p
        ensures reg[j].runId != reg[p].runId
      {
        assert j > 0 ==> reg[j] == reg[1..][j - 1];
      }
    }
  }

  lemma UpsertKeepsShape(reg: Registry, e: Entry)
    requires Find(reg, e.runId).Some?
    ensures SameShape(reg, Upsert(reg, e))
  {
    var p := UpsertReplacesFound(reg, e);
  }

  // ---- What one sync leaves for each run ----

  /** The last superseded row of the run. */
  function LastRow(rows: seq<Row>, runId: string): Option<Row> {
    if rows == [] then None
    else if rows[|rows| - 1].status == SupersededRow && rows[|rows| - 1].runId == runId then Some(rows[|rows| - 1])
    else LastRow(rows[..|rows| - 1], runId)
  }

  predicate IsSuperseded(rows: seq<Row>, runId: string) {
    LastRow(rows, runId).Some?
  }

  lemma {:induction false} LastRowNamesRun(rows: seq<Row>, runId: string)
    requires IsSuperseded(rows, runId)
    ensures LastRow(rows, runId).value.runId == runId
    decreases |rows|
  {
    if rows[|rows| - 1].status == SupersededRow && rows[|rows| - 1].runId == runId {
    } else {
      LastRowNamesRun(rows[..|rows| - 1], runId);
    }
  }

  predicate Supersedes(row: Row, runId: string) {
    row.status == SupersededRow && row.runId == runId
  }

  /** It is the last of the superseded rows that name the run, if any does. */
  lemma {:induction false} LastRowIsLast(rows: seq<Row>, runId: string) returns (k: nat)
    ensures LastRow(rows, runId) == None ==> forall i :: 0 <= i < |rows| ==> !Supersedes(rows[i], runId)
    ensures LastRow(rows, runId).Some? ==>
      && k < |rows| && LastRow(rows, runId) == Some(rows[k]) && Supersedes(rows[k], runId)
      && forall i :: k < i < |rows| ==> !Supersedes(rows[i], runId)
    decreases |rows|
  {
    k := 0;
    if rows == [] {
    } else {
      var n := |rows| - 1;
      var front := rows[..n];
      assert forall i :: 0 <= i < n ==> front[i] == rows[i];
      if Supersedes(rows[n], runId) {
        k := n;
      } else {
        k := LastRowIsLast(front, runId);
      }
    }
  }

  /** The candidate is not one of the packets the intake lists as superseded. */
  predicate WellFormed(e: Evidence) {
    !IsSuperseded(e.historical, e.candidate.runId)
  }

  /** Rebuilding an entry from itself, at any later time, gives it back. */
  lemma RebuiltEntriesAreStable(e: Evidence, row: Row, now: string, later: string, existing: Option<Entry>)
    ensures
      var c := CandidateEntry(e, now, existing);
      CandidateEntry(e, later, Some(c)) == c
    ensures
      var s := SupersededEntry(e, row, now, existing);
      SupersededEntry(e, row, later, Some(s)) == s
  {
  }

  /** Of several rows of one run the last decides, as if it were the only one. */
  lemma LaterRowReplacesEarlier(e: Evidence, row: Row, last: Row, now: string, later: string, existing: Option<Entry>)
    requires row.runId == last.runId
    ensures SupersededEntry(e, last, later, Some(SupersededEntry(e, row, now, existing)))
         == SupersededEntry(e, last, now, existing)
  {
  }

  function EntryAfterRows(e: Evidence, rows: seq<Row>, now: string, before: Option<Entry>, runId: string): Option<Entry> {
    var row := LastRow(rows, runId);
    if row.Some? then Some(SupersededEntry(e, row.value, now, before)) else before
  }

  /** A run's entry after a sync, from that run's own entry before it. */
  function EntryAfter(e: Evidence, now: string, before: Option<Entry>, runId: string): Option<Entry> {
    EntryAfterRows(e, e.historical, now, if runId == e.candidate.runId then Some(CandidateEntry(e, now, before)) else before, runId)
  }

  lemma {:induction false} FoldIsPerRun(e: Evidence, rows: seq<Row>, now: string, reg: Registry, runId: string)
    ensures Find(FoldRows(e, rows, now, reg), runId) == EntryAfterRows(e, rows, now, Find(reg, runId), runId)
    decreases |rows|
  {
    if rows == [] {
    } else {
      var front, row := rows[..|rows| - 1], rows[|rows| - 1];
      var earlier := FoldRows(e, front, now, reg);
      FoldIsPerRun(e, front, now, reg, runId);
      UpsertThenFind(earlier, SupersededEntry(e, row, now, Find(earlier, row.runId)), runId);
      if row.runId == runId && IsSuperseded(front, runId) {
        LastRowNamesRun(front, runId);
        LaterRowReplacesEarlier(e, LastRow(front, runId).value, row, now, now, Find(reg, runId));
      }
    }
  }

  /** The two loops over one registry act on every run separately. */
  lemma SyncIsPerRun(e: Evidence, now: string, reg: Registry, runId: string)
    ensures Find(SyncRegistry(e, now, reg), runId) == EntryAfter(e, now, Find(reg, runId), runId)
  {
    var c := CandidateEntry(e, now, Find(reg, e.candidate.runId));
    UpsertThenFind(reg, c, runId);
    FoldIsPerRun(e, e.historical, now, Upsert(reg, c), runId);
  }

  /** The entry carries the candidate's verified identity and grants nothing. */
  predicate BindsCandidate(x: Entry, c: Context) {
    && x.runId == c.runId && x.packetHash == c.packetHash && x.journalId == c.journalId && x.journalHash == c.journalHash
    && x.commit == c.commit && x.captureId == c.captureId
    && x.status == IntakeVerified && !x.executionAuthorized && x.supersededBy == None
  }

  /** The entry carries the row's packet, and the issued registry's identity where there is one. */
  predicate BindsRow(x: Entry, e: Evidence, row: Row) {
    && x.runId == row.runId && x.packetHash == row.packetHash
    && x.status == Superseded && !x.executionAuthorized && x.supersededBy == row.supersededBy
    && (row.runId in e.issued ==>
          var i := e.issued[row.runId];
          x.journalId == i.journalId && x.journalHash == i.journalHash && x.commit == i.commit)
  }

  /** When a run was first recorded, as far as the registry knew before the sync. */
  function FirstSeen(existing: Option<Entry>, now: string): string {
    if existing.Some? then existing.value.discoveredAt else now
  }

  /**
   * One sync writes the candidate's and each superseded run's entry, bound to the committed evidence
   * and keeping when it was discovered, and leaves every other run's entry alone. Of several rows of
   * one run the last binds.
   */
  lemma SyncWritesExactlyItsRuns(e: Evidence, now: string, reg: Registry, runId: string)
    requires WellFormed(e)
    ensures
      var before, after, row := Find(reg, runId), Find(SyncRegistry(e, now, reg), runId), LastRow(e.historical, runId);
      && (runId == e.candidate.runId ==>
            && after.Some? && BindsCandidate(after.value, e.candidate)
            && after.value.discoveredAt == FirstSeen(SamePacket(before, e.candidate.packetHash), now))
      && (row.Some? ==>
            && after.Some? && after.value.runId == runId && BindsRow(after.value, e, row.value)
            && after.value.discoveredAt == FirstSeen(before, now))
      && (runId != e.candidate.runId && row == None ==> after == before)
  {
    SyncIsPerRun(e, now, reg, runId);
    if IsSuperseded(e.historical, runId) {
      LastRowNamesRun(e.historical, runId);
    }
  }

  function VerdictOf(e: Evidence, lane: Lane): Option<Verdict> {
    if lane == Zeus then e.zeusVerdict else e.eveVerdict
  }

  function LaneOf(e: Entry, lane: Lane): LaneStatus {
    if lane == Zeus then e.zeus else e.eve
  }

  /** The registry's entry for this packet as candidate, if it is recorded under this hash. */
  ghost predicate Holds(reg: Registry, c: Context, x: Entry) {
    Find(reg, c.runId) == Some(x) && x.packetHash == c.packetHash
  }

  /**
   * A sync records each lane's validated verdict for its candidate, unless the lane already has a
   * terminal status for this packet, which stays; without either the lane is awaited.
   */
  lemma VerdictIsRecorded(e: Evidence, now: string, reg: Registry, lane: Lane)
    requires WellFormed(e)
    ensures
      var after := Find(SyncRegistry(e, now, reg), e.candidate.runId);
      && after.Some?
      && (forall x :: Holds(reg, e.candidate, x) && LaneOf(x, lane).Final? ==> LaneOf(after.value, lane) == LaneOf(x, lane))
      && ((forall x :: Holds(reg, e.candidate, x) ==> !LaneOf(x, lane).Final?) ==>
            match VerdictOf(e, lane)
            case Some(v) => LaneOf(after.value, lane) == Final(v)
            case None => LaneOf(after.value, lane) == Awaiting)
  {
    var before := Find(reg, e.candidate.runId);
    SyncIsPerRun(e, now, reg, e.candidate.runId);
    if before.Some? {
      assert Holds(reg, e.candidate, before.value) <==> before.value.packetHash == e.candidate.packetHash;
    }
  }

  /** A human decision on this packet stays; without one, or on another packet, a decision is awaited. */
  lemma HumanDecisionIsAwaited(e: Evidence, now: string, reg: Registry)
    requires WellFormed(e)
    ensures
      var after := Find(SyncRegistry(e, now, reg), e.candidate.runId);
      && after.Some?
      && (forall x :: Holds(reg, e.candidate, x) && x.human in {Approved, Rejected} ==> after.value.human == x.human)
      && ((forall x :: Holds(reg, e.candidate, x) ==> x.human !in {Approved, Rejected}) ==> after.value.human == AwaitingHuman)
  {
    var before := Find(reg, e.candidate.runId);
    SyncIsPerRun(e, now, reg, e.candidate.runId);
    if before.Some? {
      assert Holds(reg, e.candidate, before.value) <==> before.value.packetHash == e.candidate.packetHash;
    }
  }

  /**
   * The candidate's intake is stamped with the current time exactly when it was not yet complete for
   * this packet or a status moved; the first verification and the artifacts' places are on record.
   */
  lemma IntakeIsStampedExactly(e: Evidence, now: string, reg: Registry)
    requires WellFormed(e)
    ensures
      var id := e.candidate.runId;
      var before, after := Find(reg, id), Find(SyncRegistry(e, now, reg), id);
      && after.Some?
      && var x := after.value;
      && x.journalsCompleted == Some(true) && x.supersedes == None && x.zeusJournalId == None && x.eveJournalId == None
      && x.zeusPath == Some(REVIEW_DIRECTORY + id + "/" + "ZEUS" + REVIEW_FILE)
      && x.evePath == Some(REVIEW_DIRECTORY + id + "/" + "EVE" + REVIEW_FILE)
      && (if before.Some? && before.value.packetHash == x.packetHash && before.value.intakeVerifiedAt.Some?
          then x.intakeVerifiedAt == before.value.intakeVerifiedAt else x.intakeVerifiedAt == Some(now))
      && (if before.Some? && before.value.packetHash == x.packetHash && before.value.status == IntakeVerified
             && before.value.journalsCompleted == Some(true)
             && before.value.zeus == x.zeus && before.value.eve == x.eve && before.value.human == x.human
          then x.lastIntakeAt == before.value.lastIntakeAt else x.lastIntakeAt == Some(now))
  {
    SyncIsPerRun(e, now, reg, e.candidate.runId);
  }

  /** The identity an entry carries when nothing is issued for its run. */
  predicate SameIdentity(x: Entry, journalId: string, journalHash: string, commit: string) {
    x.journalId == journalId && x.journalHash == journalHash && x.commit == commit
  }

  /** A superseded run keeps everything the packet does not decide; what was never known stays 'unknown'. */
  lemma SupersededRunKeepsRecord(e: Evidence, now: string, reg: Registry, runId: string)
    requires WellFormed(e) && IsSuperseded(e.historical, runId)
    ensures
      var before, after := Find(reg, runId), Find(SyncRegistry(e, now, reg), runId);
      && after.Some?
      && var x := after.value;
      && x.intakeVerifiedAt == None && x.supersedes == None
      && x.zeusPath == None && x.evePath == None && x.zeusJournalId == None && x.eveJournalId == None
      && match before
         case Some(y) =>
           && x.zeus == y.zeus && x.eve == y.eve && x.human == y.human && x.captureId == y.captureId
           && x.journalsCompleted == Some(y.journalsCompleted == Some(true))
           && (if y.lastIntakeAt.Some? then x.lastIntakeAt == y.lastIntakeAt else x.lastIntakeAt == Some(now))
           && (runId !in e.issued ==> SameIdentity(x, y.journalId, y.journalHash, y.commit))
         case None =>
           && x.zeus == Awaiting && x.eve == Awaiting && x.human == AwaitingHuman && x.captureId == "unknown"
           && x.journalsCompleted == Some(false) && x.lastIntakeAt == Some(now)
           && (runId !in e.issued ==> SameIdentity(x, "unknown", "unknown", "unknown"))
  {
    SyncIsPerRun(e, now, reg, runId);
    LastRowNamesRun(e.historical, runId);
  }

  // ---- Idempotence ----

  lemma {:induction false} FoldKeepsShape(e: Evidence, rows: seq<Row>, now: string, reg: Registry)
    requires forall id :: IsSuperseded(rows, id) ==> Find(reg, id).Some?
    ensures SameShape(reg, FoldRows(e, rows, now, reg))
    decreases |rows|
  {
    if rows == [] {
    } else {
      var front, row := rows[..|rows| - 1], rows[|rows| - 1];
      var earlier := FoldRows(e, front, now, reg);
      assert forall id :: IsSuperseded(front, id) ==> IsSuperseded(rows, id);
      FoldKeepsShape(e, front, now, reg);
      if row.status == SupersededRow {
        assert IsSuperseded(rows, row.runId);
        FoldIsPerRun(e, front, now, reg, row.runId);
        var x := SupersededEntry(e, row, now, Find(earlier, row.runId));
        UpsertKeepsShape(earlier, x);
        SameShapeTransitive(reg, earlier, Upsert(earlier, x));
      }
    }
  }

  lemma EntryAfterIsStable(e: Evidence, now: string, later: string, before: Option<Entry>, runId: string)
    requires WellFormed(e)
    ensures
      var after := EntryAfter(e, now, before, runId);
      EntryAfter(e, later, after, runId) == after
  {
    RebuiltEntriesAreStable(e, LastRow(e.historical, runId).GetOr(Row("", "", CandidateRow, None)), now, later, before);
  }

  /** A second run on the same evidence, at any time, returns the same registry. */
  lemma SecondSyncChangesNoEntry(e: Evidence, now: string, later: string, reg: Registry)
    requires WellFormed(e)
    ensures SyncRegistry(e, later, SyncRegistry(e, now, reg)) == SyncRegistry(e, now, reg)
  {
    var id, once := e.candidate.runId, SyncRegistry(e, now, reg);
    var twice := SyncRegistry(e, later, once);
    forall any
      ensures Find(twice, any) == Find(once, any)
      ensures IsSuperseded(e.historical, any) ==> Find(once, any).Some?
    {
      SyncIsPerRun(e, now, reg, any);
      SyncIsPerRun(e, later, once, any);
      EntryAfterIsStable(e, now, later, Find(reg, any), any);
    }
    SyncIsPerRun(e, now, reg, id);
    RebuiltEntriesAreStable(e, Row("", "", CandidateRow, None), now, later, Find(reg, id));
    UpsertOfFoundChangesNothing(once, CandidateEntry(e, later, Find(once, id)));
    FoldKeepsShape(e, e.historical, later, once);
    SameLookupsSameRegistry(once, twice);
  }

  /** Were the candidate also a superseded run, every sync after the first would stamp its entry anew. */
  lemma OverlappingCandidateIsRestamped(e: Evidence, now: string, later: string, reg: Registry)
    requires IsSuperseded(e.historical, e.candidate.runId)
    ensures
      var id, once := e.candidate.runId, SyncRegistry(e, now, reg);
      var twice := Find(SyncRegistry(e, later, once), id);
      && Find(once, id).Some? && Find(once, id).value.lastIntakeAt.Some?
      && twice.Some? && twice.value.lastIntakeAt == Some(later)
  {
    var id := e.candidate.runId;
    SyncIsPerRun(e, now, reg, id);
    SyncIsPerRun(e, later, SyncRegistry(e, now, reg), id);
  }

  /**
   * A sync on unchanged evidence leaves the registry as it is, whatever the time, exactly when the
   * candidate is not also listed as superseded.
   */
  lemma SyncIdempotentExactly(e: Evidence, now: string, reg: Registry)
    ensures (forall later :: SyncRegistry(e, later, SyncRegistry(e, now, reg)) == SyncRegistry(e, now, reg))
         <==> !IsSuperseded(e.historical, e.candidate.runId)
  {
    if IsSuperseded(e.historical, e.candidate.runId) {
      OverlappingCandidateIsRestamped(e, now, now, reg);
      var recorded := Find(SyncRegistry(e, now, reg), e.candidate.runId).value.lastIntakeAt.value;
      var later := recorded + "x";
      assert |later| != |recorded|;
      OverlappingCandidateIsRestamped(e, now, later, reg);
    } else {
      forall later
        ensures SyncRegistry(e, later, SyncRegistry(e, now, reg)) == SyncRegistry(e, now, reg)
      {
        SecondSyncChangesNoEntry(e, now, later, reg);
      }
    }
  }

  // ---- Receipts ----

  /** The label stands where the wording puts it, between white space, and nowhere before. */
  ghost predicate Readable(w: Wording, c: Context) {
    forall lane ::
      && w.head(lane, c) != [] && IsSpace(w.head(lane, c)[|w.head(lane, c)| - 1])
      && MarkerFree(w.head(lane, c))
      && (w.tail(lane) != [] ==> IsSpace(w.tail(lane)[0]))
  }

  lemma RenderedTimestampIsFound(w: Wording, lane: Lane, c: Context, generatedAt: string)
    requires Readable(w, c) && IsToken(generatedAt)
    ensures FirstGeneratedAt(ReceiptFile(w, lane, c, generatedAt)) == Some(generatedAt)
  {
    var head, after := w.head(lane, c), w.tail(lane) + "\n";
    assert ReceiptFile(w, lane, c, generatedAt) == head + (MARKER + " " + generatedAt + after);
    CaptureFindsToken(head, generatedAt, after);
  }

  /**
   * After a sync each lane's file is as it was when that was current, and otherwise this packet's
   * receipt with the current time after the label; no other file changes.
   */
  lemma ReceiptsAfterSync(w: Wording, e: Evidence, now: string, receipts: map<string, string>, path: string)
    ensures
      var c, after := e.candidate, SyncReceipts(w, e, now, receipts);
      && (path != ArtifactPath(c.runId, Zeus) && path != ArtifactPath(c.runId, Eve) ==>
            (path in after <==> path in receipts) && (path in after ==> after[path] == receipts[path]))
      && (forall lane :: path == ArtifactPath(c.runId, lane) ==>
            && path in after
            && after[path] == if UpToDate(w, receipts, lane, c) then receipts[path]
                              else w.head(lane, c) + "generated_at:" + " " + now + w.tail(lane) + "\n")
  {
    PathsDiffer(e.candidate.runId);
    LanesAreIndependent(w, receipts, e.candidate, now);
  }

  /** A receipt is skipped exactly when it is this packet's rendering at some timestamp, byte for byte. */
  lemma UpToDateExactly(w: Wording, receipts: map<string, string>, lane: Lane, c: Context)
    requires Readable(w, c)
    ensures
      var path := ArtifactPath(c.runId, lane);
      UpToDate(w, receipts, lane, c) <==>
        path in receipts && exists t :: IsToken(t) && receipts[path] == ReceiptFile(w, lane, c, t)
  {
    var path := ArtifactPath(c.runId, lane);
    if UpToDate(w, receipts, lane, c) {
      CaptureIsToken(receipts[path]);
    }
    if path in receipts && exists t :: IsToken(t) && receipts[path] == ReceiptFile(w, lane, c, t) {
      var t :| IsToken(t) && receipts[path] == ReceiptFile(w, lane, c, t);
      RenderedTimestampIsFound(w, lane, c, t);
    }
  }

  /** After a sync both receipts are current, so a second sync on the same packet writes none. */
  lemma SecondSyncWritesNoReceipt(w: Wording, e: Evidence, now: string, receipts: map<string, string>)
    requires Readable(w, e.candidate) && IsToken(now)
    ensures
      var after := SyncReceipts(w, e, now, receipts);
      UpToDate(w, after, Zeus, e.candidate) && UpToDate(w, after, Eve, e.candidate)
  {
    PathsDiffer(e.candidate.runId);
    RenderedTimestampIsFound(w, Zeus, e.candidate, now);
    RenderedTimestampIsFound(w, Eve, e.candidate, now);
  }

  // ---- Every sequence of syncs ----

  datatype SyncEvent = SyncEvent(evidence: Evidence, now: string)

  function RunSyncs(reg: Registry, events: seq<SyncEvent>): Registry {
    if events == [] then reg
    else
      var last := events[|events| - 1];
      SyncRegistry(last.evidence, last.now, RunSyncs(reg, events[..|events| - 1]))
  }

  /** No entry authorises execution. */
  predicate NothingAuthorised(reg: Registry) {
    forall i :: 0 <= i < |reg| ==> !reg[i].executionAuthorized
  }

  lemma {:induction false} UpsertAuthorisesNothing(reg: Registry, x: Entry)
    requires NothingAuthorised(reg) && !x.executionAuthorized
    ensures NothingAuthorised(Upsert(reg, x))
    decreases |reg|
  {
    if reg == [] || reg[0].runId == x.runId {
    } else {
      UpsertAuthorisesNothing(reg[1..], x);
    }
  }

  lemma {:induction false} FoldAuthorisesNothing(e: Evidence, rows: seq<Row>, now: string, reg: Registry)
    requires NothingAuthorised(reg)
    ensures NothingAuthorised(FoldRows(e, rows, now, reg))
    decreases |rows|
  {
    if rows == [] {
    } else {
      var n := |rows| - 1;
      FoldAuthorisesNothing(e, rows[..n], now, reg);
      if rows[n].status == SupersededRow {
        var earlier := FoldRows(e, rows[..n], now, reg);
        UpsertAuthorisesNothing(earlier, SupersededEntry(e, rows[n], now, Find(earlier, rows[n].runId)));
      }
    }
  }

  /** No sequence of syncs ever authorises execution. */
  lemma {:induction false} SyncsNeverAuthorise(reg: Registry, events: seq<SyncEvent>)
    requires NothingAuthorised(reg)
    ensures NothingAuthorised(RunSyncs(reg, events))
    decreases |events|
  {
    if events == [] {
    } else {
      var front, last := events[..|events| - 1], events[|events| - 1];
      SyncsNeverAuthorise(reg, front);
      var earlier, e := RunSyncs(reg, front), last.evidence;
      var c := CandidateEntry(e, last.now, Find(earlier, e.candidate.runId));
      UpsertAuthorisesNothing(earlier, c);
      FoldAuthorisesNothing(e, e.historical, last.now, Upsert(earlier, c));
    }
  }

  datatype Decider = Machine(lane: Lane) | Human

  /** One decider has reached a final status. */
  predicate Terminal(e: Entry, who: Decider) {
    match who
    case Machine(Zeus) => e.zeus.Final?
    case Machine(Eve) => e.eve.Final?
    case Human => e.human == Approved || e.human == Rejected
  }

  predicate SameStatus(e: Entry, f: Entry, who: Decider) {
    match who
    case Machine(Zeus) => e.zeus == f.zeus
    case Machine(Eve) => e.eve == f.eve
    case Human => e.human == f.human
  }

  /** One sync keeps a terminal status while the run's packet hash stays the same. */
  lemma SyncKeepsTerminal(e: Evidence, now: string, reg: Registry, runId: string, who: Decider)
    requires WellFormed(e)
    requires Find(reg, runId).Some? && Terminal(Find(reg, runId).value, who)
    requires
      var after := Find(SyncRegistry(e, now, reg), runId);
      after.Some? ==> after.value.packetHash == Find(reg, runId).value.packetHash
    ensures
      var after := Find(SyncRegistry(e, now, reg), runId);
      after.Some? && SameStatus(after.value, Find(reg, runId).value, who)
  {
    SyncIsPerRun(e, now, reg, runId);
  }

  /** While a run keeps its packet hash, no sequence of syncs changes a terminal status. */
  lemma {:induction false} TerminalStatusIsStable(reg: Registry, events: seq<SyncEvent>, runId: string, hash: string, who: Decider)
    requires forall k :: 0 <= k < |events| ==> WellFormed(events[k].evidence)
    requires Find(reg, runId).Some? && Terminal(Find(reg, runId).value, who)
    requires forall k :: 0 <= k <= |events| ==>
      var found := Find(RunSyncs(reg, events[..k]), runId);
      found.Some? ==> found.value.packetHash == hash
    ensures
      var found := Find(RunSyncs(reg, events), runId);
      found.Some? && SameStatus(found.value, Find(reg, runId).value, who)
    decreases |events|
  {
    assert events[..|events|] == events && events[..0] == [];
    if events == [] {
    } else {
      var n := |events| - 1;
      var front, last := events[..n], events[n];
      assert forall k :: 0 <= k <= n ==> front[..k] == events[..k];
      TerminalStatusIsStable(reg, front, runId, hash, who);
      assert events[..n] == front;
      SyncKeepsTerminal(last.evidence, last.now, RunSyncs(reg, front), runId, who);
    }
  }

  /** Some event validated this verdict for the run, as its candidate. */
  ghost predicate Validated(events: seq<SyncEvent>, runId: string, lane: Lane, v: Verdict) {
    exists k :: 0 <= k < |events| && ValidatedAt(events[k], runId, lane, v)
  }

  predicate ValidatedAt(ev: SyncEvent, runId: string, lane: Lane, v: Verdict) {
    && ev.evidence.candidate.runId == runId
    && VerdictOf(ev.evidence, lane) == Some(v)
  }

  lemma ValidatedLater(events: seq<SyncEvent>, last: SyncEvent, runId: string, lane: Lane, v: Verdict)
    requires Validated(events, runId, lane, v) || ValidatedAt(last, runId, lane, v)
    ensures Validated(events + [last], runId, lane, v)
  {
    if ValidatedAt(last, runId, lane, v) {
      assert ValidatedAt((events + [last])[|events|], runId, lane, v);
    } else {
      var k :| 0 <= k < |events| && ValidatedAt(events[k], runId, lane, v);
      assert ValidatedAt((events + [last])[k], runId, lane, v);
    }
  }

  /** No terminal status is invented: it stood in the initial registry or was validated for the run. */
  ghost predicate Justified(reg: Registry, events: seq<SyncEvent>, runId: string, lane: Lane, v: Verdict) {
    || (Find(reg, runId).Some? && LaneOf(Find(reg, runId).value, lane) == Final(v))
    || Validated(events, runId, lane, v)
  }

  /** Where a status after one sync comes from. */
  lemma StatusAfterSync(e: Evidence, now: string, reg: Registry, runId: string)
    ensures
      var before, after := Find(reg, runId), Find(SyncRegistry(e, now, reg), runId);
      after.Some? ==>
        && (after.value.zeus.Final? ==>
              || (before.Some? && after.value.zeus == before.value.zeus)
              || ValidatedAt(SyncEvent(e, now), runId, Zeus, after.value.zeus.verdict))
        && (after.value.eve.Final? ==>
              || (before.Some? && after.value.eve == before.value.eve)
              || ValidatedAt(SyncEvent(e, now), runId, Eve, after.value.eve.verdict))
        && (Terminal(after.value, Human) ==> before.Some? && after.value.human == before.value.human)
  {
    SyncIsPerRun(e, now, reg, runId);
  }

  lemma {:induction false} EveryVerdictIsJustified(reg: Registry, events: seq<SyncEvent>, runId: string, lane: Lane)
    ensures
      var found := Find(RunSyncs(reg, events), runId);
      found.Some? && LaneOf(found.value, lane).Final? ==> Justified(reg, events, runId, lane, LaneOf(found.value, lane).verdict)
    ensures
      var found := Find(RunSyncs(reg, events), runId);
      found.Some? && Terminal(found.value, Human) ==> Find(reg, runId).Some? && Find(reg, runId).value.human == found.value.human
    decreases |events|
  {
    if events == [] {
    } else {
      var front, last := events[..|events| - 1], events[|events| - 1];
      assert events == front + [last];
      EveryVerdictIsJustified(reg, front, runId, lane);
      StatusAfterSync(last.evidence, last.now, RunSyncs(reg, front), runId);
      forall v | Validated(front, runId, lane, v) || ValidatedAt(last, runId, lane, v)
        ensures Validated(events, runId, lane, v)
      {
        ValidatedLater(front, last, runId, lane, v);
      }
    }
  }

  // ---- When a verdict stays with its packet ----

  /** The entry stands for another packet with the same status, although the run was no candidate. */
  predicate CarriedOver(before: Entry, after: Entry, e: Evidence, who: Decider) {
    before.runId != e.candidate.runId && SameStatus(after, before, who) && after.packetHash != before.packetHash
  }

  /** A sync gives a terminal status to another packet exactly when the run's last row names that packet. */
  lemma VerdictCarriedExactly(e: Evidence, now: string, reg: Registry, runId: string, who: Decider)
    requires WellFormed(e)
    requires Find(reg, runId).Some? && Terminal(Find(reg, runId).value, who)
    ensures
      var x, after, row := Find(reg, runId).value, Find(SyncRegistry(e, now, reg), runId), LastRow(e.historical, runId);
      && after.Some?
      && (CarriedOver(x, after.value, e, who) <==> row.Some? && row.value.packetHash != x.packetHash)
  {
    SyncIsPerRun(e, now, reg, runId);
    FindHasRunId(reg, runId);
  }

  /** The packet hash the superseded rows of a run named last, or the one it started with. */
  function NamedHash(events: seq<SyncEvent>, runId: string, hash: string): string {
    if events == [] then hash
    else
      var row := LastRow(events[|events| - 1].evidence.historical, runId);
      if row.Some? then row.value.packetHash else NamedHash(events[..|events| - 1], runId, hash)
  }

  /** Whenever the run was the candidate, it was so for the packet named last. */
  predicate CandidateAsNamed(events: seq<SyncEvent>, runId: string, hash: string) {
    if events == [] then true
    else
      var front, c := events[..|events| - 1], events[|events| - 1].evidence.candidate;
      CandidateAsNamed(front, runId, hash) && (c.runId == runId ==> c.packetHash == NamedHash(front, runId, hash))
  }

  /** A lane's verdict was validated for the run during the events; nothing validates a human decision. */
  ghost predicate Revalidated(events: seq<SyncEvent>, runId: string, who: Decider, x: Entry)
    requires Terminal(x, who)
  {
    who.Machine? && Validated(events, runId, who.lane, LaneOf(x, who.lane).verdict)
  }

  /** What the theorem below says of the events so far. */
  ghost predicate FollowsNamed(reg: Registry, events: seq<SyncEvent>, runId: string, who: Decider)
    requires Find(reg, runId).Some? && Terminal(Find(reg, runId).value, who)
  {
    var x, found := Find(reg, runId).value, Find(RunSyncs(reg, events), runId);
    && found.Some?
    && (CandidateAsNamed(events, runId, x.packetHash) ==>
          SameStatus(found.value, x, who) && found.value.packetHash == NamedHash(events, runId, x.packetHash))
    && (!CandidateAsNamed(events, runId, x.packetHash) && SameStatus(found.value, x, who) ==>
          Revalidated(events, runId, who, x))
  }

  ghost predicate RevalidatedAt(ev: SyncEvent, runId: string, who: Decider, x: Entry)
    requires Terminal(x, who)
  {
    who.Machine? && ValidatedAt(ev, runId, who.lane, LaneOf(x, who.lane).verdict)
  }

  lemma RevalidatedLater(events: seq<SyncEvent>, runId: string, who: Decider, x: Entry)
    requires events != [] && Terminal(x, who)
    requires Revalidated(events[..|events| - 1], runId, who, x) || RevalidatedAt(events[|events| - 1], runId, who, x)
    ensures Revalidated(events, runId, who, x)
  {
    var front, last := events[..|events| - 1], events[|events| - 1];
    ValidatedLater(front, last, runId, who.lane, LaneOf(x, who.lane).verdict);
    assert front + [last] == events;
  }

  /** One sync, for an entry `y` of the run and the status `x` had. */
  lemma EntryFollowsNamed(ev: SyncEvent, runId: string, who: Decider, x: Entry, y: Entry)
    requires WellFormed(ev.evidence) && Terminal(x, who)
    ensures
      var e := ev.evidence;
      var row, after := LastRow(e.historical, runId), EntryAfter(e, ev.now, Some(y), runId);
      var asNamed := e.candidate.runId == runId ==> e.candidate.packetHash == y.packetHash;
      && after.Some?
      && (SameStatus(y, x, who) && asNamed ==>
            SameStatus(after.value, x, who)
            && after.value.packetHash == if row.Some? then row.value.packetHash else y.packetHash)
      && (SameStatus(after.value, x, who) && !(SameStatus(y, x, who) && asNamed) ==> RevalidatedAt(ev, runId, who, x))
  {
  }

  lemma SyncFollowsNamed(reg: Registry, events: seq<SyncEvent>, runId: string, who: Decider)
    requires events != [] && WellFormed(events[|events| - 1].evidence)
    requires Find(reg, runId).Some? && Terminal(Find(reg, runId).value, who)
    requires FollowsNamed(reg, events[..|events| - 1], runId, who)
    ensures FollowsNamed(reg, events, runId, who)
  {
    var front, last := events[..|events| - 1], events[|events| - 1];
    var x, earlier := Find(reg, runId).value, RunSyncs(reg, front);
    SyncIsPerRun(last.evidence, last.now, earlier, runId);
    EntryFollowsNamed(last, runId, who, x, Find(earlier, runId).value);
    if Revalidated(front, runId, who, x) || RevalidatedAt(last, runId, who, x) {
      RevalidatedLater(events, runId, who, x);
    }
  }

  /**
   * Over any syncs: a terminal status is kept, for whichever packet the rows named last, if the run
   * is a candidate only for that packet, and otherwise it is gone unless it was validated again.
   */
  lemma {:induction false} VerdictFollowsNamedPacket(reg: Registry, events: seq<SyncEvent>, runId: string, who: Decider)
    requires forall k :: 0 <= k < |events| ==> WellFormed(events[k].evidence)
    requires Find(reg, runId).Some? && Terminal(Find(reg, runId).value, who)
    ensures FollowsNamed(reg, events, runId, who)
    decreases |events|
  {
    if events == [] {
    } else {
      VerdictFollowsNamedPacket(reg, events[..|events| - 1], runId, who);
      SyncFollowsNamed(reg, events, runId, who);
    }
  }

  /** A human decision survives any syncs exactly while the run is a candidate only for the packet named last. */
  lemma {:induction false} HumanDecisionKeptExactly(reg: Registry, events: seq<SyncEvent>, runId: string)
    requires forall k :: 0 <= k < |events| ==> WellFormed(events[k].evidence)
    requires Find(reg, runId).Some? && Terminal(Find(reg, runId).value, Human)
    ensures
      var x, found := Find(reg, runId).value, Find(RunSyncs(reg, events), runId);
      found.Some? && (found.value.human == x.human <==> CandidateAsNamed(events, runId, x.packetHash))
  {
    VerdictFollowsNamedPacket(reg, events, runId, Human);
  }

  lemma {:induction false} RunSyncsOn(reg: Registry, events: seq<SyncEvent>, later: seq<SyncEvent>)
    ensures RunSyncs(reg, events + later) == RunSyncs(RunSyncs(reg, events), later)
    decreases |later|
  {
    if later == [] {
      assert events + later == events;
    } else {
      var front := later[..|later| - 1];
      RunSyncsOn(reg, events, front);
      assert (events + later)[..|events + later| - 1] == events + front;
    }
  }

  /**
   * A verdict validated for a candidate packet that has no terminal status of its lane yet is on
   * record from then on, for the packet the rows named last, while the run is a candidate only for it.
   */
  lemma ValidatedVerdictStays(
      reg: Registry, earlier: seq<SyncEvent>, ev: SyncEvent, later: seq<SyncEvent>, lane: Lane, v: Verdict)
    requires WellFormed(ev.evidence) && forall k :: 0 <= k < |later| ==> WellFormed(later[k].evidence)
    requires VerdictOf(ev.evidence, lane) == Some(v)
    requires forall x :: Holds(RunSyncs(reg, earlier), ev.evidence.candidate, x) ==> !LaneOf(x, lane).Final?
    requires CandidateAsNamed(later, ev.evidence.candidate.runId, ev.evidence.candidate.packetHash)
    ensures
      var id := ev.evidence.candidate.runId;
      var found := Find(RunSyncs(reg, earlier + [ev] + later), id);
      && found.Some? && LaneOf(found.value, lane) == Final(v)
      && found.value.packetHash == NamedHash(later, id, ev.evidence.candidate.packetHash)
  {
    var id := ev.evidence.candidate.runId;
    var before, once := RunSyncs(reg, earlier), RunSyncs(reg, earlier + [ev]);
    assert (earlier + [ev])[..|earlier|] == earlier;
    VerdictIsRecorded(ev.evidence, ev.now, before, lane);
    SyncWritesExactlyItsRuns(ev.evidence, ev.now, before, id);
    RunSyncsOn(reg, earlier + [ev], later);
    VerdictFollowsNamedPacket(once, later, id, Machine(lane));
  }

  // ---- Known identities stay known ----

  predicate IdentitiesKnown(e: Evidence) {
    && e.candidate.journalId != UNKNOWN
    && forall id :: id in e.issued ==> e.issued[id].journalId != UNKNOWN
  }

  /** Once a run's journal id is known, no sequence of syncs makes it 'unknown' again. */
  lemma {:induction false} KnownJournalStaysKnown(reg: Registry, events: seq<SyncEvent>, runId: string)
    requires forall k :: 0 <= k < |events| ==> IdentitiesKnown(events[k].evidence)
    requires Find(reg, runId).Some? && Find(reg, runId).value.journalId != UNKNOWN
    ensures
      var found := Find(RunSyncs(reg, events), runId);
      found.Some? && found.value.journalId != UNKNOWN
    decreases |events|
  {
    if events == [] {
    } else {
      var n := |events| - 1;
      var front, last := events[..n], events[n];
      KnownJournalStaysKnown(reg, front, runId);
      assert IdentitiesKnown(last.evidence);
      SyncIsPerRun(last.evidence, last.now, RunSyncs(reg, front), runId);
    }
  }
}
