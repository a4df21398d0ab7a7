/**
 * The full export of `lib/dat/canonize.ts` with the record and file formats of
 * `lib/dat/hashDatRecord.ts`: the writer of the directories that `DatVerifier` accepts.
 */
module DatWriter {
  import opened Wrappers
  import opened Hashing
  import opened StringOrder
  import opened DatVerifier

  const BLOCKS_PER_DAT_FILE := 100

  /** A sealed block is what a record holds beside its two hashes. */
  type Sealed = string

  /** JSON.stringify on a whole record. */
  type LineOf = Record -> string

  /** A record's line parses back to it, is not blank and holds no line break. */
  ghost predicate WritesRecords(c: Codec, line: LineOf) {
    forall r :: c.parse(line(r)) == Some(r) && HasText(line(r)) && '\n' !in line(r)
  }

  // ---- Records ----

  /** buildDatRecord */
  function Build(c: Codec, block: Sealed, prevHash: string): Record {
    var fields := Fields(Some(prevHash), block);
    Record(fields, Some(Prefixed(c, c.stringify(fields) + prevHash)))
  }

  /** The hash the next record is linked to. */
  function TipOf(records: seq<Record>): string {
    if records == [] then ZeroHash() else records[|records| - 1].blockHash.GetOr("")
  }

  function Records(c: Codec, blocks: seq<Sealed>): (rs: seq<Record>)
    ensures |rs| == |blocks|
  {
    if blocks == [] then []
    else
      var earlier := Records(c, blocks[..|blocks| - 1]);
      earlier + [Build(c, blocks[|blocks| - 1], TipOf(earlier))]
  }

  function Lines(line: LineOf, records: seq<Record>): (lines: seq<string>)
    ensures |lines| == |records|
    ensures forall i :: 0 <= i < |records| ==> lines[i] == line(records[i])
  {
    if records == [] then [] else Lines(line, records[..|records| - 1]) + [line(records[|records| - 1])]
  }

  /** The records of the first blocks are the first of all records. */
  lemma {:induction false} RecordsStart(c: Codec, blocks: seq<Sealed>, i: nat)
    requires i <= |blocks|
    ensures Records(c, blocks[..i]) == Records(c, blocks)[..i]
    decreases |blocks|
  {
    if i == |blocks| {
      assert blocks[..i] == blocks;
    } else {
      var front := blocks[..|blocks| - 1];
      assert front[..i] == blocks[..i];
      RecordsStart(c, front, i);
    }
  }

  lemma RecordsStep(c: Codec, blocks: seq<Sealed>, block: Sealed)
    ensures Records(c, blocks + [block]) == Records(c, blocks) + [Build(c, block, TipOf(Records(c, blocks)))]
  {
    assert (blocks + [block])[..|blocks|] == blocks;
  }

  lemma RecordsGrow(c: Codec, blocks: seq<Sealed>, i: nat)
    requires i < |blocks|
    ensures
      var records := Records(c, blocks);
      records[..i + 1] == records[..i] + [Build(c, blocks[i], TipOf(records[..i]))]
  {
    RecordsStart(c, blocks, i);
    RecordsStart(c, blocks, i + 1);
    SplitNext(blocks, i);
    RecordsStep(c, blocks[..i], blocks[i]);
  }

  lemma SplitNext(blocks: seq<Sealed>, i: nat)
    requires i < |blocks|
    ensures blocks[..i + 1] == blocks[..i] + [blocks[i]]
  {
  }

  // ---- Files ----

  function Min(a: nat, b: nat): nat {
    if a < b then a else b
  }

  /** The records of the k-th file. */
  function Chunk(records: seq<Record>, k: nat): seq<Record> {
    records[Min(100 * k, |records|)..Min(100 * k + 100, |records|)]
  }

  function FileCount(n: nat): nat {
    (n + 99) / 100
  }

  /** The records' lines, each with a line break behind it. */
  function Content(line: LineOf, records: seq<Record>): string
    requires records != []
  {
    JoinLines(Lines(line, records)) + "\n"
  }

  function PadStart(s: string, width: nat): string
    decreases width - |s|
  {
    if |s| >= width then s else PadStart("0" + s, width)
  }

  function FileName(k: nat): string {
    "blk" + PadStart(Digits(k), 4) + ".dat"
  }

  /** The names of the first k files, in the order they are written. */
  function FileNames(k: nat): (names: seq<string>)
    ensures |names| == k
    ensures forall i :: 0 <= i < k ==> names[i] == FileName(i)
  {
    if k == 0 then [] else FileNames(k - 1) + [FileName(k - 1)]
  }

  function WrittenFiles(line: LineOf, records: seq<Record>, k: nat): map<string, string>
    requires 100 * k < |records| + 100
  {
    if k == 0 then map[]
    else WrittenFiles(line, records, k - 1)[FileName(k - 1) := Content(line, Chunk(records, k - 1))]
  }

  function WrittenEntries(c: Codec, line: LineOf, records: seq<Record>, k: nat): map<string, FileEntry>
    requires 100 * k < |records| + 100
  {
    if k == 0 then map[]
    else
      var chunk := Chunk(records, k - 1);
      WrittenEntries(c, line, records, k - 1)[FileName(k - 1) := FileEntry(Prefixed(c, Content(line, chunk)), |chunk|)]
  }

  datatype Exported = Exported(manifest: Manifest, dir: map<string, string>)

  function ExportOf(c: Codec, line: LineOf, blocks: seq<Sealed>): Exported {
    var records := Records(c, blocks);
    var k := FileCount(|records|);
    Exported(Manifest(WrittenEntries(c, line, records, k), TipOf(records), |blocks|), WrittenFiles(line, records, k))
  }

  /** What the loop has written and holds back after i records. */
  datatype Progress = Progress(fileRecords: seq<Record>, fileIndex: nat, dir: map<string, string>, entries: map<string, FileEntry>)

  /** The first k files are written. */
  ghost predicate Written(
      c: Codec, line: LineOf, records: seq<Record>, k: nat, dir: map<string, string>, entries: map<string, FileEntry>)
  {
    100 * k < |records| + 100 && dir == WrittenFiles(line, records, k) && entries == WrittenEntries(c, line, records, k)
  }

  lemma WrittenNext(
      c: Codec, line: LineOf, records: seq<Record>, k: nat, dir: map<string, string>, entries: map<string, FileEntry>)
    requires Written(c, line, records, k, dir, entries) && 100 * k < |records|
    ensures Chunk(records, k) != []
    ensures
      var chunk, name := Chunk(records, k), FileName(k);
      Written(c, line, records, k + 1, dir[name := Content(line, chunk)],
        entries[name := FileEntry(Prefixed(c, Content(line, chunk)), |chunk|)])
  {
  }

  /** The records since the last whole file are held back; after the last record nothing is. */
  ghost predicate HeldBack(records: seq<Record>, i: nat, k: nat, held: seq<Record>) {
    && i <= |records|
    && (if i == |records| then k == FileCount(|records|)
        else 100 * k <= i < 100 * k + 100 && held == records[100 * k..i])
  }

  lemma HoldsBack(records: seq<Record>, i: nat, k: nat, held: seq<Record>)
    requires HeldBack(records, i, k, held) && i < |records| - 1 && |held| + 1 < 100
    ensures HeldBack(records, i + 1, k, held + [records[i]])
  {
  }

  lemma FileIsFull(records: seq<Record>, i: nat, k: nat, held: seq<Record>)
    requires HeldBack(records, i, k, held) && i < |records|
    requires |held| + 1 == 100 || i == |records| - 1
    ensures 100 * k < |records| && held + [records[i]] == Chunk(records, k)
    ensures HeldBack(records, i + 1, k + 1, [])
  {
    assert Min(100 * k, |records|) == 100 * k && Min(100 * k + 100, |records|) == i + 1;
    assert records[100 * k..i + 1] == records[100 * k..i] + [records[i]];
  }

  lemma NextRecord(c: Codec, blocks: seq<Sealed>, i: nat)
    requires i < |blocks|
    ensures
      var records := Records(c, blocks);
      && records[i] == Build(c, blocks[i], TipOf(records[..i]))
      && records[i].blockHash.Some? && TipOf(records[..i + 1]) == records[i].blockHash.value
  {
    RecordsGrow(c, blocks, i);
    var records := Records(c, blocks);
    assert records[..i + 1][i] == records[i];
  }

  /** Writes the held-back records and one more as the next file. */
  method WriteFile(c: Codec, line: LineOf, p: Progress, record: Record) returns (q: Progress)
    ensures
      var chunk, name := p.fileRecords + [record], FileName(p.fileIndex);
      q == Progress([], p.fileIndex + 1, p.dir[name := Content(line, chunk)],
        p.entries[name := FileEntry(Prefixed(c, Content(line, chunk)), |chunk|)])
  {
    var fileRecords := p.fileRecords + [record];
    var filename := FileName(p.fileIndex);
    var content := Content(line, fileRecords);
    var fileHash := Prefixed(c, content);
    q := Progress([], p.fileIndex + 1, p.dir[filename := content], p.entries[filename := FileEntry(fileHash, |fileRecords|)]);
  }

  /** One turn of the loop, for the i-th record. */
  method AddRecord(c: Codec, line: LineOf, p: Progress, record: Record, isLastBlock: bool, ghost records: seq<Record>, ghost i: nat)
    returns (q: Progress)
    requires HeldBack(records, i, p.fileIndex, p.fileRecords)
    requires Written(c, line, records, p.fileIndex, p.dir, p.entries)
    requires i < |records| && record == records[i] && (isLastBlock <==> i == |records| - 1)
    ensures HeldBack(records, i + 1, q.fileIndex, q.fileRecords)
    ensures Written(c, line, records, q.fileIndex, q.dir, q.entries)
  {
    if |p.fileRecords| + 1 == BLOCKS_PER_DAT_FILE || isLastBlock {
      FileIsFull(records, i, p.fileIndex, p.fileRecords);
      WrittenNext(c, line, records, p.fileIndex, p.dir, p.entries);
      q := WriteFile(c, line, p, record);
    } else {
      HoldsBack(records, i, p.fileIndex, p.fileRecords);
      q := p.(fileRecords := p.fileRecords + [record]);
    }
  }

  /** The loop of the export. Nothing is written when there are no blocks. */
  method Export(c: Codec, line: LineOf, blocks: seq<Sealed>) returns (written: Option<Exported>)
    ensures written == if blocks == [] then None else Some(ExportOf(c, line, blocks))
  {
    if |blocks| == 0 {
      return None;
    }
    ghost var records := Records(c, blocks);
    var chainTip := ZeroHash();
    var p := Progress([], 0, map[], map[]);
    for i := 0 to |blocks|
      invariant chainTip == TipOf(records[..i])
      invariant HeldBack(records, i, p.fileIndex, p.fileRecords)
      invariant Written(c, line, records, p.fileIndex, p.dir, p.entries)
    {
      var record := Build(c, blocks[i], chainTip);
      NextRecord(c, blocks, i);
      chainTip := record.blockHash.value;
      p := AddRecord(c, line, p, record, i == |blocks| - 1, records, i);
    }
    assert records[..|blocks|] == records;
    written := Some(Exported(Manifest(p.entries, chainTip, |blocks|), p.dir));
  }

  // ---- The verifier reads back what was written ----

  lemma {:induction false} JoinThenSplit(lines: seq<string>)
    requires |lines| > 0 && NoLineBreak(lines)
    ensures SplitLines(JoinLines(lines)) == lines
    decreases |lines|, |lines[0]|
  {
    var text := JoinLines(lines);
    if lines[0] == [] {
      if |lines| == 1 {
      } else {
        assert text[0] == '\n' && text[1..] == JoinLines(lines[1..]);
        JoinThenSplit(lines[1..]);
      }
    } else {
      var shorter := [lines[0][1..]] + lines[1..];
      assert shorter[1..] == lines[1..];
      assert text == [lines[0][0]] + JoinLines(shorter);
      assert lines[0][0] in lines[0];
      forall i | 0 <= i < |shorter|
        ensures '\n' !in shorter[i]
      {
        assert i > 0 ==> shorter[i] == lines[i];
        assert '\n' !in lines[0];
      }
      JoinThenSplit(shorter);
      assert [lines[0][0]] + lines[0][1..] == lines[0];
    }
  }

  lemma {:induction false} JoinEndsWithBreak(lines: seq<string>)
    requires |lines| > 0
    ensures JoinLines(lines + [""]) == JoinLines(lines) + "\n"
    decreases |lines|
  {
    var longer := lines + [""];
    if |lines| == 1 {
      assert longer[1..] == [""];
      assert JoinLines(longer) == lines[0] + "\n" + "";
    } else {
      assert longer[1..] == lines[1..] + [""];
      JoinEndsWithBreak(lines[1..]);
    }
  }

  lemma {:induction false} BlankLineIsDropped(lines: seq<string>)
    requires forall i :: 0 <= i < |lines| ==> HasText(lines[i])
    ensures WithText(lines + [""]) == lines
    decreases |lines|
  {
    if lines == [] {
    } else {
      assert (lines + [""])[1..] == lines[1..] + [""];
      BlankLineIsDropped(lines[1..]);
    }
  }

  /** A written file holds its records' lines and no others. */
  lemma ContentReadsBack(c: Codec, line: LineOf, records: seq<Record>)
    requires WritesRecords(c, line) && records != []
    ensures RecordLines(Content(line, records)) == Lines(line, records)
  {
    var lines := Lines(line, records);
    JoinEndsWithBreak(lines);
    JoinThenSplit(lines + [""]);
    BlankLineIsDropped(lines);
  }

  lemma WrittenLineLinks(c: Codec, line: LineOf, blocks: seq<Sealed>, i: nat)
    requires WritesRecords(c, line) && i <= |blocks|
    ensures
      var records := Records(c, blocks);
      && HashBefore(c, Lines(line, records), i) == Some(TipOf(records[..i]))
      && (i < |blocks| ==> LinkedAt(c, Lines(line, records), i))
  {
    var records := Records(c, blocks);
    if i > 0 {
      NextRecord(c, blocks, i - 1);
      assert c.parse(line(records[i - 1])) == Some(records[i - 1]);
    }
    if i < |blocks| {
      NextRecord(c, blocks, i);
      assert c.parse(line(records[i])) == Some(records[i]);
    }
  }

  lemma WrittenLinesChain(c: Codec, line: LineOf, blocks: seq<Sealed>)
    requires WritesRecords(c, line)
    ensures
      var records := Records(c, blocks);
      var lines := Lines(line, records);
      Chained(c, lines) && HashBefore(c, lines, |lines|) == Some(TipOf(records))
  {
    var records := Records(c, blocks);
    forall i | 0 <= i <= |blocks|
      ensures HashBefore(c, Lines(line, records), i) == Some(TipOf(records[..i]))
      ensures i < |blocks| ==> LinkedAt(c, Lines(line, records), i)
    {
      WrittenLineLinks(c, line, blocks, i);
    }
    assert records[..|blocks|] == records;
  }

  // ---- File names sort by number ----

  predicate AllDigits(s: string) {
    forall i :: 0 <= i < |s| ==> '0' <= s[i] <= '9'
  }

  /** Of two equally long rows of digits the first with a smaller digit is the smaller number. */
  lemma {:induction false} SmallerRowIsLess(s: string, t: string, k: nat)
    requires |s| == |t| && AllDigits(s) && AllDigits(t) && SmallerAt(s, t, k)
    ensures Decimal(s) < Decimal(t)
    decreases |s|
  {
    var n := |s| - 1;
    if k == n {
      assert s[..n] == t[..n];
    } else {
      assert s[..n][..k] == s[..k] && t[..n][..k] == t[..k];
      SmallerRowIsLess(s[..n], t[..n], k);
    }
  }

  lemma RowsSortAsNumbers(s: string, t: string) returns (k: nat)
    requires |s| == |t| && AllDigits(s) && AllDigits(t) && Decimal(s) < Decimal(t)
    ensures SmallerAt(s, t, k)
  {
    LessTotal(s, t);
    LessExactly(s, t);
    LessExactly(t, s);
    if j: nat :| SmallerAt(t, s, j) {
      SmallerRowIsLess(t, s, j);
    }
    k :| SmallerAt(s, t, k);
  }

  lemma {:induction false} LeadingZero(s: string)
    requires AllDigits(s)
    ensures AllDigits("0" + s) && Decimal("0" + s) == Decimal(s)
    decreases |s|
  {
    var t := "0" + s;
    if s == [] {
      assert t[..0] == [];
    } else {
      var n := |s| - 1;
      LeadingZero(s[..n]);
      assert t[..|t| - 1] == "0" + s[..n];
    }
  }

  lemma {:induction false} PaddingKeepsNumber(s: string, width: nat)
    requires AllDigits(s) && |s| <= width
    ensures |PadStart(s, width)| == width && AllDigits(PadStart(s, width)) && Decimal(PadStart(s, width)) == Decimal(s)
    decreases width - |s|
  {
    if |s| == width {
    } else {
      LeadingZero(s);
      PaddingKeepsNumber("0" + s, width);
    }
  }

  lemma AtMostFourDigits(n: nat)
    requires n < 10_000
    ensures |Digits(n)| <= 4
  {
    if n >= 10 {
      assert |Digits(n)| == |Digits(n / 10)| + 1;
      if n >= 100 {
        assert |Digits(n / 10)| == |Digits(n / 10 / 10)| + 1;
        if n >= 1000 {
          assert |Digits(n / 10 / 10)| == |Digits(n / 10 / 10 / 10)| + 1 && n / 10 / 10 / 10 < 10;
        }
      }
    }
  }

  lemma PaddedNumber(n: nat)
    requires n < 10_000
    ensures
      var row := PadStart(Digits(n), 4);
      |row| == 4 && AllDigits(row) && Decimal(row) == n
  {
    AtMostFourDigits(n);
    DigitsReadBack(n);
    PaddingKeepsNumber(Digits(n), 4);
  }

  lemma NamesSort(i: nat, j: nat)
    requires i < j < 10_000
    ensures Less(FileName(i), FileName(j))
  {
    PaddedNumber(i);
    PaddedNumber(j);
    var a, b := PadStart(Digits(i), 4), PadStart(Digits(j), 4);
    var k := RowsSortAsNumbers(a, b);
    FramedSmaller(a, b, k);
    LessExactly(FileName(i), FileName(j));
  }

  lemma FramedSmaller(a: string, b: string, k: nat)
    requires SmallerAt(a, b, k) && |a| == |b|
    ensures SmallerAt("blk" + a + ".dat", "blk" + b + ".dat", k + 3)
  {
    var s, t := "blk" + a + ".dat", "blk" + b + ".dat";
    assert s[..k + 3] == "blk" + a[..k] && t[..k + 3] == "blk" + b[..k];
    assert s[k + 3] == a[k] && t[k + 3] == b[k];
  }

  lemma RoundNumbers()
    ensures Digits(10) == "10" && Digits(100) == "100"
    ensures Digits(1_000) == "1000" && Digits(10_000) == "10000" && Digits(1_001) == "1001"
  {
    AppendDigit(1, 0);
    AppendDigit(10, 0);
    AppendDigit(100, 0);
    AppendDigit(1_000, 0);
    AppendDigit(100, 1);
  }

  lemma AppendDigit(n: nat, d: nat)
    requires n > 0 && d < 10
    ensures Digits(10 * n + d) == Digits(n) + [('0' as int + d) as char]
    ensures n < 10 ==> Digits(n) == [('0' as int + n) as char]
  {
    assert (10 * n + d) / 10 == n && (10 * n + d) % 10 == d;
  }

  /** With five digits a name sorts before some shorter ones. */
  lemma FiveDigitNameSortsEarly()
    ensures Less(FileName(10_000), FileName(1_001))
  {
    RoundNumbers();
    var s, t := FileName(10_000), FileName(1_001);
    assert s == "blk" + "10000" + ".dat" && t == "blk" + "1001" + ".dat";
    assert s[..6] == "blk" + "100" && t[..6] == "blk" + "100";
    assert s[6] == '0' && t[6] == '1';
    LessExactly(s, t);
    assert SmallerAt(s, t, 6);
  }

  /** The files sort in the order they are written exactly while there are at most ten thousand. */
  lemma NamesAscendExactly(k: nat)
    ensures Ascending(FileNames(k)) <==> k <= 10_000
  {
    var names := FileNames(k);
    if k <= 10_000 {
      forall i, j | 0 <= i < j < k
        ensures Less(names[i], names[j])
      {
        NamesSort(i, j);
      }
    } else {
      FiveDigitNameSortsEarly();
      LessTotal(FileName(10_000), FileName(1_001));
      assert names[1_001] == FileName(1_001) && names[10_000] == FileName(10_000);
    }
  }

  // ---- What is written is accepted ----

  lemma {:induction false} WrittenNames(c: Codec, line: LineOf, records: seq<Record>, k: nat)
    requires 100 * k < |records| + 100
    ensures forall n :: n in WrittenEntries(c, line, records, k) <==> n in FileNames(k)
    ensures forall n :: n in WrittenFiles(line, records, k) <==> n in FileNames(k)
    decreases k
  {
    if k == 0 {
    } else {
      WrittenNames(c, line, records, k - 1);
    }
  }

  lemma DistinctNames(i: nat, j: nat)
    requires i < 10_000 && j < 10_000 && i != j
    ensures FileName(i) != FileName(j)
  {
    LessTotal(FileName(i), FileName(i));
    if i < j {
      NamesSort(i, j);
    } else {
      NamesSort(j, i);
    }
  }

  /** Of at most ten thousand files each stays as it was first written. */
  lemma {:induction false} WrittenAt(c: Codec, line: LineOf, records: seq<Record>, k: nat, i: nat)
    requires 100 * k < |records| + 100 && i < k <= 10_000
    ensures
      var chunk, name := Chunk(records, i), FileName(i);
      && chunk != []
      && name in WrittenFiles(line, records, k) && WrittenFiles(line, records, k)[name] == Content(line, chunk)
      && name in WrittenEntries(c, line, records, k)
      && WrittenEntries(c, line, records, k)[name] == FileEntry(Prefixed(c, Content(line, chunk)), |chunk|)
    decreases k
  {
    if i == k - 1 {
    } else {
      DistinctNames(i, k - 1);
      WrittenAt(c, line, records, k - 1, i);
    }
  }

  lemma LinesJoin(line: LineOf, a: seq<Record>, b: seq<Record>)
    ensures Lines(line, a + b) == Lines(line, a) + Lines(line, b)
  {
  }

  lemma ChunkFollows(line: LineOf, records: seq<Record>, k: nat)
    ensures Lines(line, records[..Min(100 * (k + 1), |records|)])
         == Lines(line, records[..Min(100 * k, |records|)]) + Lines(line, Chunk(records, k))
  {
    var a, b := records[..Min(100 * k, |records|)], Chunk(records, k);
    LinesJoin(line, a, b);
    assert records[..Min(100 * (k + 1), |records|)] == a + b;
  }

  lemma LinesOfWrittenFile(c: Codec, line: LineOf, records: seq<Record>, n: nat, k: nat)
    requires WritesRecords(c, line) && 100 * n < |records| + 100 && k < n <= 10_000
    ensures LinesIn(WrittenFiles(line, records, n), FileName(k)) == Lines(line, Chunk(records, k))
  {
    WrittenAt(c, line, records, n, k);
    ContentReadsBack(c, line, Chunk(records, k));
  }

  lemma {:induction false} WrittenLinesInOrder(c: Codec, line: LineOf, records: seq<Record>, n: nat, k: nat)
    requires WritesRecords(c, line) && 100 * n < |records| + 100 && k <= n <= 10_000
    ensures AllLines(WrittenFiles(line, records, n), FileNames(k)) == Lines(line, records[..Min(100 * k, |records|)])
    decreases k
  {
    var dir := WrittenFiles(line, records, n);
    if k == 0 {
    } else {
      var names := FileNames(k);
      WrittenLinesInOrder(c, line, records, n, k - 1);
      LinesOfWrittenFile(c, line, records, n, k - 1);
      ChunkFollows(line, records, k - 1);
      assert names[..|names| - 1] == FileNames(k - 1) && names[|names| - 1] == FileName(k - 1);
    }
  }

  lemma WrittenFileOk(c: Codec, line: LineOf, blocks: seq<Sealed>, i: nat)
    requires WritesRecords(c, line) && i < FileCount(|blocks|) <= 10_000
    ensures
      var e := ExportOf(c, line, blocks);
      FileName(i) in e.manifest.files && FileOk(c, e.manifest, e.dir, FileName(i))
  {
    var records := Records(c, blocks);
    WrittenAt(c, line, records, FileCount(|records|), i);
    ContentReadsBack(c, line, Chunk(records, i));
  }

  lemma ListedInWritingOrder(c: Codec, line: LineOf, blocks: seq<Sealed>, names: seq<string>)
    requires FileCount(|blocks|) <= 10_000 && IsListing(ExportOf(c, line, blocks).manifest, names)
    ensures names == FileNames(FileCount(|blocks|))
  {
    var k := FileCount(|blocks|);
    NamesAscendExactly(k);
    WrittenNames(c, line, Records(c, blocks), k);
    AscendingUnique(names, FileNames(k));
  }

  lemma AllWrittenLines(c: Codec, line: LineOf, blocks: seq<Sealed>)
    requires WritesRecords(c, line) && FileCount(|blocks|) <= 10_000
    ensures AllLines(ExportOf(c, line, blocks).dir, FileNames(FileCount(|blocks|))) == Lines(line, Records(c, blocks))
  {
    var records, k := Records(c, blocks), FileCount(|blocks|);
    WrittenLinesInOrder(c, line, records, k, k);
    assert Min(100 * k, |records|) == |records|;
    assert records[..|records|] == records;
  }

  ghost predicate TotalsHold(c: Codec, m: Manifest, lines: seq<string>) {
    Chained(c, lines) && HashBefore(c, lines, |lines|) == Some(m.chainTipHash) && |lines| == m.totalBlocks
  }

  lemma WrittenTotalsHold(c: Codec, line: LineOf, blocks: seq<Sealed>)
    requires WritesRecords(c, line)
    ensures TotalsHold(c, ExportOf(c, line, blocks).manifest, Lines(line, Records(c, blocks)))
  {
    WrittenLinesChain(c, line, blocks);
  }

  /**
   * The verifier accepts every full export of at most a million blocks, whatever it holds: with the
   * manifest's files sorted by name, every file, the whole chain and both totals check.
   */
  lemma ExportIsAccepted(c: Codec, line: LineOf, blocks: seq<Sealed>, names: seq<string>)
    requires WritesRecords(c, line) && |blocks| <= 1_000_000
    requires IsListing(ExportOf(c, line, blocks).manifest, names)
    ensures Accepted(c, ExportOf(c, line, blocks).manifest, ExportOf(c, line, blocks).dir, names)
  {
    var e := ExportOf(c, line, blocks);
    ListedInWritingOrder(c, line, blocks, names);
    AllWrittenLines(c, line, blocks);
    WrittenTotalsHold(c, line, blocks);
    forall i | 0 <= i < |names|
      ensures names[i] in e.manifest.files && FileOk(c, e.manifest, e.dir, names[i])
    {
      WrittenFileOk(c, line, blocks, i);
    }
  }
}
