/** The reserve-block chain verifier, `scripts/verify-dat-chain.js`. */
module DatVerifier {
  import opened Wrappers
  import opened Hashing
  import opened Sequences
  import opened StringOrder
  import opened Text

  /** A parsed record without its block_hash; `rest` stands for all other fields, in order. */
  datatype Fields = Fields(prevHash: Option<string>, rest: string)

  datatype Record = Record(fields: Fields, blockHash: Option<string>)

  /** JSON.parse on a line (None when it throws), JSON.stringify on the record without block_hash. */
  datatype Codec = Codec(sha: Hash, parse: string -> Option<Record>, stringify: Fields -> string)

  ghost predicate Faithful(c: Codec) {
    && RendersHex(c.sha)
    && (forall f, g :: c.stringify(f) == c.stringify(g) ==> f == g)
    && (forall f :: EndsInBrace(c.stringify(f)))
  }

  predicate EndsInBrace(s: string) {
    s != [] && s[|s| - 1] == '}'
  }

  datatype FileEntry = FileEntry(sha256: string, blockCount: int)

  datatype Manifest = Manifest(files: map<string, FileEntry>, chainTipHash: string, totalBlocks: int)

  function Prefixed(c: Codec, text: string): string {
    "sha256:" + c.sha(text)
  }

  // ---- Lines ----

  function SplitLines(content: string): (lines: seq<string>)
    ensures |lines| > 0
  {
    if content == [] then [""]
    else if content[0] == '\n' then [""] + SplitLines(content[1..])
    else
      var later := SplitLines(content[1..]);
      [[content[0]] + later[0]] + later[1..]
  }

  predicate HasText(line: string) {
    exists i :: 0 <= i < |line| && !IsSpace(line[i])
  }

  function WithText(lines: seq<string>): seq<string> {
    if lines == [] then []
    else if HasText(lines[0]) then [lines[0]] + WithText(lines[1..])
    else WithText(lines[1..])
  }

  function RecordLines(content: string): seq<string> {
    WithText(SplitLines(content))
  }

  /** `lines.join('\n')` */
  function JoinLines(lines: seq<string>): string
    requires |lines| > 0
  {
    if |lines| == 1 then lines[0] else lines[0] + "\n" + JoinLines(lines[1..])
  }

  predicate NoLineBreak(lines: seq<string>) {
    forall i :: 0 <= i < |lines| ==> '\n' !in lines[i]
  }

  /** Splitting undoes joining: the lines are those between the line breaks of the text. */
  lemma {:induction false} SplitLinesJoins(content: string)
    ensures JoinLines(SplitLines(content)) == content && NoLineBreak(SplitLines(content))
    decreases |content|
  {
    if content == [] {
    } else {
      var ch, later := content[0], SplitLines(content[1..]);
      SplitLinesJoins(content[1..]);
      assert content == [ch] + content[1..];
      if ch == '\n' {
        assert SplitLines(content)[1..] == later;
      } else {
        var lines := [[ch] + later[0]] + later[1..];
        assert lines[1..] == later[1..];
        assert |lines| > 1 ==> JoinLines(lines) == [ch] + (later[0] + "\n" + JoinLines(later[1..]));
      }
    }
  }

  lemma {:induction false} WithTextSelects(lines: seq<string>) returns (at: seq<nat>)
    ensures Selects(WithText(lines), lines, at)
    ensures forall i: nat :: i in at <==> i < |lines| && HasText(lines[i])
    decreases |lines|
  {
    if lines == [] {
      at := [];
    } else {
      var later := WithTextSelects(lines[1..]);
      at := SelectsInFront(lines[0], WithText(lines[1..]), lines[1..], HasText(lines[0]), later);
      assert [lines[0]] + lines[1..] == lines;
      forall i: nat
        ensures i in at <==> i < |lines| && HasText(lines[i])
      {
        assert i > 0 ==> (i - 1 in later <==> i - 1 < |lines[1..]| && HasText(lines[1..][i - 1]));
      }
    }
  }

  /** The records of a file are, in order, exactly the lines that are not only white space. */
  lemma RecordLinesAreLinesWithText(content: string) returns (at: seq<nat>)
    ensures Selects(RecordLines(content), SplitLines(content), at)
    ensures forall i: nat :: i in at <==>
      i < |SplitLines(content)| && exists k :: 0 <= k < |SplitLines(content)[i]| && !IsSpace(SplitLines(content)[i][k])
  {
    at := WithTextSelects(SplitLines(content));
  }

  // ---- The flat specification ----

  /** The record follows a block with this hash and carries its own hash. */
  predicate LinkOk(c: Codec, prevHash: string, r: Record) {
    && r.fields.prevHash == Some(prevHash)
    && r.blockHash == Some(Prefixed(c, c.stringify(r.fields) + prevHash))
  }

  /** The hash the i-th line must follow, if it exists. */
  function HashBefore(c: Codec, lines: seq<string>, i: nat): Option<string>
    requires i <= |lines|
  {
    if i == 0 then Some(ZeroHash())
    else
      match c.parse(lines[i - 1])
      case None => None
      case Some(r) => r.blockHash
  }

  predicate LinkedAt(c: Codec, lines: seq<string>, i: nat)
    requires i < |lines|
  {
    && c.parse(lines[i]).Some?
    && HashBefore(c, lines, i).Some?
    && LinkOk(c, HashBefore(c, lines, i).value, c.parse(lines[i]).value)
  }

  /** Read one after the other, the lines form one hash-linked chain from genesis. */
  predicate Chained(c: Codec, lines: seq<string>) {
    forall i :: 0 <= i < |lines| ==> LinkedAt(c, lines, i)
  }

  predicate FileOk(c: Codec, m: Manifest, dir: map<string, string>, name: string)
    requires name in m.files
  {
    && name in dir
    && Prefixed(c, dir[name]) == m.files[name].sha256
    && |RecordLines(dir[name])| == m.files[name].blockCount
  }

  /** The record lines of a file, none when it is missing. */
  function LinesIn(dir: map<string, string>, name: string): seq<string> {
    if name in dir then RecordLines(dir[name]) else []
  }

  /** All record lines of the listed files, in listing order. */
  function AllLines(dir: map<string, string>, names: seq<string>): seq<string> {
    if names == [] then []
    else AllLines(dir, names[..|names| - 1]) + LinesIn(dir, names[|names| - 1])
  }

  /** `names` is Object.keys(manifest.files).sort(). */
  ghost predicate IsListing(m: Manifest, names: seq<string>) {
    Ascending(names) && forall n :: n in names <==> n in m.files
  }

  ghost predicate Accepted(c: Codec, m: Manifest, dir: map<string, string>, names: seq<string>)
    requires IsListing(m, names)
  {
    && (forall i :: 0 <= i < |names| ==> FileOk(c, m, dir, names[i]))
    && Chained(c, AllLines(dir, names))
    && HashBefore(c, AllLines(dir, names), |AllLines(dir, names)|) == Some(m.chainTipHash)
    && |AllLines(dir, names)| == m.totalBlocks
  }

  /** Everything but the two manifest totals, for the files seen so far. */
  ghost predicate CleanSoFar(c: Codec, m: Manifest, dir: map<string, string>, names: seq<string>, lines: seq<string>)
    requires forall i :: 0 <= i < |names| ==> names[i] in m.files
  {
    (forall i :: 0 <= i < |names| ==> FileOk(c, m, dir, names[i])) && Chained(c, lines)
  }

  // ---- The nested loops ----

  datatype Outcome = Intact | Broken | Crashed

  /**
   * The loop over one file's lines, continuing from the carried hash and count. `sound` says that
   * the lines `before` them were chained up to that hash; after a failure nothing is promised.
   */
  method VerifyRecords(c: Codec, lines: seq<string>, startHash: string, startCount: nat, ghost before: seq<string>, ghost sound: bool)
    returns (outcome: Outcome, prevHash: string, blockCount: nat)
    requires sound ==> Chained(c, before) && HashBefore(c, before, |before|) == Some(startHash)
    ensures sound ==> (outcome == Intact <==> Chained(c, before + lines))
    ensures sound && outcome == Intact ==> HashBefore(c, before + lines, |before + lines|) == Some(prevHash)
    ensures outcome == Intact ==> blockCount == startCount + |lines|
  {
    prevHash, blockCount := startHash, startCount;
    ghost var all := before + lines;
    assert before + lines[..0] == before;
    var j := 0;
    while j < |lines|
      invariant 0 <= j <= |lines|
      invariant blockCount == startCount + j
      invariant sound ==> Chained(c, before + lines[..j])
      invariant sound ==> HashBefore(c, all, |before| + j) == Some(prevHash)
    {
      assert all[|before| + j] == lines[j];
      var parsed := c.parse(lines[j]);
      if parsed == None {
        assert !LinkedAt(c, all, |before| + j);
        return Crashed, prevHash, blockCount;
      }
      var r := parsed.value;
      if r.fields.prevHash != Some(prevHash) {
        assert sound ==> !LinkedAt(c, all, |before| + j);
        return Broken, prevHash, blockCount;
      }
      var expected := Prefixed(c, c.stringify(r.fields) + prevHash);
      if r.blockHash != Some(expected) {
        assert sound ==> !LinkedAt(c, all, |before| + j);
        return Broken, prevHash, blockCount;
      }
      if sound {
        NextLine(c, before, lines, j);
      }
      prevHash := r.blockHash.value;
      blockCount := blockCount + 1;
      j := j + 1;
    }
    assert lines[..j] == lines;
    outcome := Intact;
  }

  /** One listed file: present, matching its hash and count, and continuing the chain. */
  method VerifyFile(c: Codec, m: Manifest, dir: map<string, string>, filename: string, startHash: string, startCount: nat,
                    ghost before: seq<string>, ghost sound: bool)
    returns (outcome: Outcome, prevHash: string, blockCount: nat)
    requires filename in m.files
    requires sound ==> Chained(c, before) && HashBefore(c, before, |before|) == Some(startHash)
    ensures
      var after := before + LinesIn(dir, filename);
      && (sound ==> (outcome == Intact <==> FileOk(c, m, dir, filename) && Chained(c, after)))
      && (sound && outcome == Intact ==> HashBefore(c, after, |after|) == Some(prevHash))
      && (outcome == Intact ==> blockCount == startCount + |LinesIn(dir, filename)|)
  {
    if filename !in dir {
      return Broken, startHash, startCount;
    }
    var content := dir[filename];
    if Prefixed(c, content) != m.files[filename].sha256 {
      return Broken, startHash, startCount;
    }
    var lines := RecordLines(content);
    if |lines| != m.files[filename].blockCount {
      return Broken, startHash, startCount;
    }
    outcome, prevHash, blockCount := VerifyRecords(c, lines, startHash, startCount, before, sound);
  }

  /** The chain is sound up to the k-th listed file, with this hash and count carried. */
  ghost predicate SoundTo(c: Codec, m: Manifest, dir: map<string, string>, names: seq<string>, k: nat, prevHash: string, count: nat)
    requires k <= |names| && forall i :: 0 <= i < |names| ==> names[i] in m.files
  {
    var lines := AllLines(dir, names[..k]);
    && CleanSoFar(c, m, dir, names[..k], lines)
    && count == |lines|
    && HashBefore(c, lines, count) == Some(prevHash)
  }

  /**
   * The exit code: 2 without a readable manifest, 0 exactly when the flat specification holds, and 1
   * otherwise. A line that does not parse ends the process with code 1.
   */
  method VerifyDirectory(c: Codec, manifest: Option<Manifest>, dir: map<string, string>, datFiles: seq<string>) returns (exit: int)
    requires manifest.Some? ==> IsListing(manifest.value, datFiles)
    ensures manifest == None ==> exit == 2
    ensures manifest.Some? ==> exit == if Accepted(c, manifest.value, dir, datFiles) then 0 else 1
  {
    if manifest == None {
      return 2;
    }
    var m := manifest.value;
    var prevHash := ZeroHash();
    var globalBlockCount := 0;
    var failed := false;
    ListedNames(m, datFiles);
    for k := 0 to |datFiles|
      invariant failed ==> !Accepted(c, m, dir, datFiles)
      invariant !failed ==> SoundTo(c, m, dir, datFiles, k, prevHash, globalBlockCount)
    {
      var outcome, nextHash, nextCount :=
        VerifyFile(c, m, dir, datFiles[k], prevHash, globalBlockCount, AllLines(dir, datFiles[..k]), !failed);
      if !failed {
        NextFile(c, m, dir, datFiles, k);
        if outcome != Intact {
          NotAccepted(c, m, dir, datFiles, k + 1);
        }
      }
      if outcome == Crashed {
        return 1;
      }
      prevHash, globalBlockCount := nextHash, nextCount;
      if outcome == Broken {
        failed := true;
      }
    }
    assert datFiles[..|datFiles|] == datFiles;
    if !failed {
      if prevHash != m.chainTipHash {
        failed := true;
      }
      if globalBlockCount != m.totalBlocks {
        failed := true;
      }
    }
    exit := if failed then 1 else 0;
  }

  lemma ListedNames(m: Manifest, names: seq<string>)
    requires IsListing(m, names)
    ensures forall i :: 0 <= i < |names| ==> names[i] in m.files
  {
    assert forall i :: 0 <= i < |names| ==> names[i] in names;
  }

  lemma NextFile(c: Codec, m: Manifest, dir: map<string, string>, names: seq<string>, k: nat)
    requires k < |names| && forall i :: 0 <= i < |names| ==> names[i] in m.files
    ensures
      var before, after := AllLines(dir, names[..k]), AllLines(dir, names[..k + 1]);
      && after == before + LinesIn(dir, names[k])
      && (CleanSoFar(c, m, dir, names[..k + 1], after) <==>
            CleanSoFar(c, m, dir, names[..k], before) && FileOk(c, m, dir, names[k]) && Chained(c, after))
  {
    assert names[..k + 1][..k] == names[..k];
    var before, after := AllLines(dir, names[..k]), AllLines(dir, names[..k + 1]);
    forall i | 0 <= i < |before|
      ensures LinkedAt(c, before, i) <==> LinkedAt(c, after, i)
    {
    }
    assert forall i :: 0 <= i < k ==> names[..k + 1][i] == names[..k][i];
    assert names[..k + 1][k] == names[k];
    if CleanSoFar(c, m, dir, names[..k + 1], after) {
      forall i | 0 <= i < k
        ensures FileOk(c, m, dir, names[..k][i])
      {
        assert names[..k + 1][i] == names[..k][i];
      }
    }
  }

  lemma NextLine(c: Codec, before: seq<string>, lines: seq<string>, j: nat)
    requires j < |lines| && Chained(c, before + lines[..j])
    requires LinkedAt(c, before + lines, |before| + j)
    ensures Chained(c, before + lines[..j + 1])
  {
    var short, long := before + lines[..j], before + lines[..j + 1];
    forall i | 0 <= i < |long|
      ensures LinkedAt(c, long, i)
    {
      if i < |short| {
        assert LinkedAt(c, short, i);
      } else {
        assert LinkedAt(c, before + lines, |before| + j);
      }
    }
  }

  /** A defect in the first k files is still a defect of the whole directory. */
  lemma {:induction false} NotAccepted(c: Codec, m: Manifest, dir: map<string, string>, names: seq<string>, k: nat)
    requires IsListing(m, names) && k <= |names|
    requires forall i :: 0 <= i < |names| ==> names[i] in m.files
    requires !CleanSoFar(c, m, dir, names[..k], AllLines(dir, names[..k]))
    ensures !Accepted(c, m, dir, names)
    decreases |names| - k
  {
    if k < |names| {
      NextFile(c, m, dir, names, k);
      NotAccepted(c, m, dir, names, k + 1);
    } else {
      assert names[..k] == names;
    }
  }

  // ---- What the tip binds ----

  function RecordsOf(c: Codec, lines: seq<string>): (rs: seq<Record>)
    requires Chained(c, lines)
    ensures |rs| == |lines|
  {
    seq(|lines|, i requires 0 <= i < |lines| => assert LinkedAt(c, lines, i); c.parse(lines[i]).value)
  }

  /** In a chained list every record names the hash of the one before, or 64 zeros, and hashes its text with it. */
  lemma ChainedRecordsLink(c: Codec, lines: seq<string>, i: nat)
    requires Chained(c, lines) && i < |lines|
    ensures
      var rs := RecordsOf(c, lines);
      && rs[i].fields.prevHash.Some?
      && (i == 0 ==> |rs[i].fields.prevHash.value| == 64 && forall k :: 0 <= k < 64 ==> rs[i].fields.prevHash.value[k] == '0')
      && (i > 0 ==> rs[i].fields.prevHash == rs[i - 1].blockHash)
      && rs[i].blockHash == Some("sha256:" + c.sha(c.stringify(rs[i].fields) + rs[i].fields.prevHash.value))
  {
    assert LinkedAt(c, lines, i);
  }

  /** The texts hashed for the block hashes of a chained list of lines. */
  ghost function HashedTexts(c: Codec, lines: seq<string>): set<string>
    requires Chained(c, lines)
  {
    set i | 0 <= i < |lines| :: HashedText(c, lines, i)
  }

  ghost function HashedText(c: Codec, lines: seq<string>, i: nat): string
    requires Chained(c, lines) && i < |lines|
  {
    assert LinkedAt(c, lines, i);
    c.stringify(c.parse(lines[i]).value.fields) + HashBefore(c, lines, i).value
  }

  /** Link hashes are the zero genesis or carry the prefix, and never hold a brace. */
  lemma HashBeforeShape(c: Codec, lines: seq<string>, i: nat)
    requires Faithful(c) && Chained(c, lines) && i <= |lines|
    ensures HashBefore(c, lines, i).Some? && '}' !in HashBefore(c, lines, i).value
    ensures HashBefore(c, lines, i).value != []
    ensures HashBefore(c, lines, i).value[0] == '0' <==> i == 0
  {
    if i > 0 {
      assert LinkedAt(c, lines, i - 1);
      var r := c.parse(lines[i - 1]).value;
      assert IsHexDigest(c.sha(c.stringify(r.fields) + HashBefore(c, lines, i - 1).value));
      var d := c.sha(c.stringify(r.fields) + HashBefore(c, lines, i - 1).value);
      assert r.blockHash.value == "sha256:" + d;
      assert '}' !in "sha256:";
      forall k | 0 <= k < |d|
        ensures d[k] != '}'
      {
        assert IsHexDigit(d[k]);
      }
    }
  }

  lemma LastBraceSplits(a: string, p: string, b: string, q: string)
    requires EndsInBrace(a) && EndsInBrace(b) && '}' !in p && '}' !in q
    requires a + p == b + q
    ensures a == b && p == q
  {
    var s := a + p;
    assert s[|a| - 1] == '}' && s[|b| - 1] == '}';
    assert forall i :: |a| <= i < |s| ==> s[i] == p[i - |a|];
    assert forall i :: |b| <= i < |s| ==> s[i] == q[i - |b|];
    assert |a| == |b|;
    assert a == s[..|a|] == b;
    assert p == s[|a|..] == q;
  }

  lemma {:induction false} TipBindsLines(c: Codec, a: seq<string>, b: seq<string>)
    requires Faithful(c) && Chained(c, a) && Chained(c, b)
    requires HashBefore(c, a, |a|) == HashBefore(c, b, |b|)
    ensures RecordsOf(c, a) == RecordsOf(c, b) || CollisionBetween(c.sha, HashedTexts(c, a), HashedTexts(c, b))
    decreases |a|
  {
    HashBeforeShape(c, a, |a|);
    HashBeforeShape(c, b, |b|);
    if a == [] {
    } else {
      var i, j := |a| - 1, |b| - 1;
      assert LinkedAt(c, a, i) && LinkedAt(c, b, j);
      var s, t := HashedText(c, a, i), HashedText(c, b, j);
      assert s in HashedTexts(c, a) && t in HashedTexts(c, b);
      assert Prefixed(c, s)[7..] == c.sha(s) && Prefixed(c, t)[7..] == c.sha(t);
      if s == t {
        HashBeforeShape(c, a, i);
        HashBeforeShape(c, b, j);
        var r, q := c.parse(a[i]).value, c.parse(b[j]).value;
        LastBraceSplits(c.stringify(r.fields), HashBefore(c, a, i).value, c.stringify(q.fields), HashBefore(c, b, j).value);
        assert r == q;
        ChainedFront(c, a);
        ChainedFront(c, b);
        TipBindsLines(c, a[..i], b[..j]);
        if RecordsOf(c, a[..i]) == RecordsOf(c, b[..j]) {
          assert RecordsOf(c, a) == RecordsOf(c, a[..i]) + [r];
          assert RecordsOf(c, b) == RecordsOf(c, b[..j]) + [q];
        } else {
          CollisionGrows(c.sha, HashedTexts(c, a[..i]), HashedTexts(c, b[..j]), HashedTexts(c, a), HashedTexts(c, b));
        }
      }
    }
  }

  lemma ChainedFront(c: Codec, lines: seq<string>)
    requires Chained(c, lines) && lines != []
    ensures
      var n := |lines| - 1;
      && Chained(c, lines[..n])
      && HashBefore(c, lines[..n], n) == HashBefore(c, lines, n)
      && HashedTexts(c, lines[..n]) <= HashedTexts(c, lines)
  {
    var front := lines[..|lines| - 1];
    forall i | 0 <= i < |front|
      ensures LinkedAt(c, front, i)
    {
      assert LinkedAt(c, lines, i);
    }
    forall i | 0 <= i < |front|
      ensures HashedText(c, front, i) in HashedTexts(c, lines)
    {
      assert HashedText(c, front, i) == HashedText(c, lines, i);
    }
  }

  /**
   * Two accepted directories whose manifests name the same tip hold the same records, however the
   * records are split into files, or the texts hashed for them hold a collision.
   */
  lemma TipBindsDirectory(c: Codec, m: Manifest, dir: map<string, string>, names: seq<string>,
                          m': Manifest, dir': map<string, string>, names': seq<string>)
    requires Faithful(c)
    requires IsListing(m, names) && Accepted(c, m, dir, names)
    requires IsListing(m', names') && Accepted(c, m', dir', names')
    requires m.chainTipHash == m'.chainTipHash
    ensures
      || (RecordsOf(c, AllLines(dir, names)) == RecordsOf(c, AllLines(dir', names')) && m.totalBlocks == m'.totalBlocks)
      || CollisionBetween(c.sha, HashedTexts(c, AllLines(dir, names)), HashedTexts(c, AllLines(dir', names')))
  {
    TipBindsLines(c, AllLines(dir, names), AllLines(dir', names'));
  }
  /** An accepted directory has every listed file, with the listed digest of its content and number of records. */
  lemma AcceptedFilesMatch(c: Codec, m: Manifest, dir: map<string, string>, names: seq<string>, name: string)
    requires IsListing(m, names) && Accepted(c, m, dir, names) && name in m.files
    ensures name in dir
    ensures m.files[name].sha256 == "sha256:" + c.sha(dir[name])
    ensures m.files[name].blockCount == |RecordLines(dir[name])|
  {
    var i :| 0 <= i < |names| && names[i] == name;
    assert FileOk(c, m, dir, names[i]);
  }

  /** One manifest accepts one content for each listed file, or the contents collide. */
  lemma ManifestBindsFiles(
      c: Codec, m: Manifest, dir: map<string, string>, dir': map<string, string>, names: seq<string>, name: string)
    requires IsListing(m, names) && Accepted(c, m, dir, names) && Accepted(c, m, dir', names) && name in m.files
    ensures name in dir && name in dir'
    ensures dir[name] == dir'[name] || CollisionBetween(c.sha, {dir[name]}, {dir'[name]})
  {
    AcceptedFilesMatch(c, m, dir, names, name);
    AcceptedFilesMatch(c, m, dir', names, name);
    assert c.sha(dir[name]) == m.files[name].sha256[7..] == c.sha(dir'[name]);
    assert dir[name] in {dir[name]} && dir'[name] in {dir'[name]};
  }

  function ListedCounts(m: Manifest, names: seq<string>): int
    requires forall i :: 0 <= i < |names| ==> names[i] in m.files
  {
    if names == [] then 0 else ListedCounts(m, names[..|names| - 1]) + m.files[names[|names| - 1]].blockCount
  }

  lemma {:induction false} LinesAreCounted(c: Codec, m: Manifest, dir: map<string, string>, names: seq<string>)
    requires forall i :: 0 <= i < |names| ==> names[i] in m.files && FileOk(c, m, dir, names[i])
    ensures |AllLines(dir, names)| == ListedCounts(m, names)
    decreases |names|
  {
    if names == [] {
    } else {
      var n := |names| - 1;
      assert forall i :: 0 <= i < n ==> names[..n][i] == names[i];
      LinesAreCounted(c, m, dir, names[..n]);
      assert FileOk(c, m, dir, names[n]);
    }
  }

  /** The counts an accepted manifest lists add up to its total. */
  lemma ListedCountsAddUp(c: Codec, m: Manifest, dir: map<string, string>, names: seq<string>)
    requires IsListing(m, names) && Accepted(c, m, dir, names)
    ensures forall i :: 0 <= i < |names| ==> names[i] in m.files
    ensures ListedCounts(m, names) == m.totalBlocks
  {
    ListedNames(m, names);
    LinesAreCounted(c, m, dir, names);
  }
}
