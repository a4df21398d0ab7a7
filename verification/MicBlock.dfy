/** Blocks, mining and chain validation of `hooks/useMICBlockchain.ts`. */
module MicBlock {
  import opened Wrappers
  import opened Hashing
  import Merkle

  /** A value of a transaction's meta record; arrays and objects stand as their JSON text. */
  datatype Value = Null | Flag(on: bool) | Number(value: real) | Text(text: string) | Nested(json: string)

  /** The fields of a meta record, in the order JSON.stringify lists them. */
  type Meta = seq<(string, Value)>

  /** Amounts are whole micro-MIC, the finest grain the wallet writes. */
  datatype Tx = Tx(source: string, amount: int, recipient: string, meta: Option<Meta>)

  /** A block without its hash and nonce. */
  datatype Header = Header(index: int, timestamp: string, transactions: seq<Tx>, previousHash: string, merkleRoot: string)

  datatype Block = Block(header: Header, nonce: int, hash: string)

  /** SHA-256 and the two uses of JSON.stringify. */
  datatype Codec = Codec(sha: Hash, txText: Tx -> string, txsText: seq<Tx> -> string)

  /** Digests are hexadecimal, different values have different JSON texts, and a transaction's is that of an object. */
  ghost predicate Faithful(c: Codec) {
    && RendersHex(c.sha)
    && (forall a :: Merkle.StartsWithBrace(c.txText(a)))
    && (forall a, b :: c.txText(a) == c.txText(b) ==> a == b)
    && (forall a, b :: c.txsText(a) == c.txsText(b) ==> a == b)
  }

  const DIFFICULTY := 2
  const MAX_NONCE: nat := 500_000

  function TxTexts(c: Codec, txs: seq<Tx>): (ts: seq<string>)
    ensures |ts| == |txs|
  {
    seq(|txs|, i requires 0 <= i < |txs| => c.txText(txs[i]))
  }

  function RootOf(c: Codec, txs: seq<Tx>): string {
    Merkle.MerkleRoot(c.sha, TxTexts(c, txs))
  }

  /** The texts hashed for the roots of two lists hold a collision. */
  ghost predicate RootsCollide(c: Codec, xs: seq<Tx>, ys: seq<Tx>) {
    CollisionBetween(c.sha, Merkle.HashedTexts(c.sha, TxTexts(c, xs)), Merkle.HashedTexts(c.sha, TxTexts(c, ys)))
  }

  ghost predicate OneTree(c: Codec, xs: seq<Tx>, ys: seq<Tx>) {
    Merkle.TreeFor(TxTexts(c, xs)) == Merkle.TreeFor(TxTexts(c, ys))
  }

  lemma TxTextsFaithful(c: Codec, xs: seq<Tx>, ys: seq<Tx>)
    requires Faithful(c) && TxTexts(c, xs) <= TxTexts(c, ys)
    ensures xs <= ys
  {
    forall i | 0 <= i < |xs|
      ensures xs[i] == ys[i]
    {
      assert TxTexts(c, xs)[i] == TxTexts(c, ys)[i];
    }
  }

  /**
   * Transaction lists of any lengths have the same Merkle root if and, barring a collision among the
   * texts hashed, only if one tree is built for them; then the shorter is the start of the longer.
   */
  lemma RootsShareExactly(c: Codec, xs: seq<Tx>, ys: seq<Tx>)
    requires Faithful(c)
    ensures OneTree(c, xs, ys) ==> RootOf(c, xs) == RootOf(c, ys)
    ensures RootOf(c, xs) == RootOf(c, ys) ==> OneTree(c, xs, ys) || RootsCollide(c, xs, ys)
    ensures OneTree(c, xs, ys) && |xs| <= |ys| ==> xs <= ys
  {
    var ts, us := TxTexts(c, xs), TxTexts(c, ys);
    assert Merkle.AllBraced(ts) && Merkle.AllBraced(us);
    Merkle.RootsShareExactly(c.sha, ts, us);
    if OneTree(c, xs, ys) && |xs| <= |ys| {
      Merkle.OneTreeNests(ts, us);
      TxTextsFaithful(c, xs, ys);
    }
  }

  /** So the root binds the list once its length is known. */
  lemma MerkleRootBindsTransactions(c: Codec, xs: seq<Tx>, ys: seq<Tx>)
    requires Faithful(c) && |xs| == |ys| && RootOf(c, xs) == RootOf(c, ys)
    ensures xs == ys || RootsCollide(c, xs, ys)
  {
    RootsShareExactly(c, xs, ys);
  }

  lemma TextsOfRepeated(c: Codec, txs: seq<Tx>, p: nat)
    requires p <= |txs|
    ensures TxTexts(c, txs + txs[|txs| - p..]) == Merkle.Repeated(TxTexts(c, txs), p)
  {
  }

  /**
   * Without the length it does not: a list of more than 2^j transactions that ends with a single
   * block of 2^j of them has one tree with the list that repeats that block.
   */
  lemma MerkleRootDoesNotBindLength(c: Codec, txs: seq<Tx>, j: nat)
    requires |txs| > Merkle.Pow2(j) && |txs| % (2 * Merkle.Pow2(j)) == Merkle.Pow2(j)
    ensures
      var longer := txs + txs[|txs| - Merkle.Pow2(j)..];
      |longer| > |txs| && OneTree(c, longer, txs) && RootOf(c, longer) == RootOf(c, txs)
  {
    Merkle.RepeatedBlockKeepsRoot(c.sha, TxTexts(c, txs), j);
    TextsOfRepeated(c, txs, Merkle.Pow2(j));
  }

  // ---- Block hash ----

  function HashText(c: Codec, h: Header, nonce: int): string {
    JoinPipes([NumberText(h.index), h.timestamp, h.previousHash, h.merkleRoot, NumberText(nonce), c.txsText(h.transactions)])
  }

  function BlockHash(c: Codec, h: Header, nonce: int): string {
    c.sha(HashText(c, h, nonce))
  }

  /** No separator in the leading text fields. */
  predicate PipeFree(h: Header) {
    '|' !in h.timestamp && '|' !in h.previousHash && '|' !in h.merkleRoot
  }

  lemma HashTextFaithful(c: Codec, g: Header, m: int, h: Header, n: int)
    requires Faithful(c) && PipeFree(g) && PipeFree(h)
    requires HashText(c, g, m) == HashText(c, h, n)
    ensures g == h && m == n
  {
    NumberTextFaithful(g.index, h.index);
    NumberTextFaithful(h.index, g.index);
    NumberTextFaithful(m, n);
    NumberTextFaithful(n, m);
    var ps := [NumberText(g.index), g.timestamp, g.previousHash, g.merkleRoot, NumberText(m), c.txsText(g.transactions)];
    var qs := [NumberText(h.index), h.timestamp, h.previousHash, h.merkleRoot, NumberText(n), c.txsText(h.transactions)];
    JoinPipesFaithful(ps, qs);
    assert forall i :: 0 <= i < 6 ==> ps[i] == qs[i];
    assert ps[0] == qs[0] && ps[1] == qs[1] && ps[2] == qs[2] && ps[3] == qs[3] && ps[4] == qs[4] && ps[5] == qs[5];
  }

  /** Different headers with one hashed text. */
  predicate SameText(c: Codec, h: Header, other: Header, nonce: int) {
    other != h && HashText(c, other, nonce) == HashText(c, h, nonce)
  }

  lemma TimestampShifts(c: Codec, h: Header, nonce: int, p: string, q: string)
    requires h.timestamp == p + "|" + q
    ensures SameText(c, h, h.(timestamp := p, previousHash := q + "|" + h.previousHash), nonce)
  {
    var r := h.previousHash;
    var other := h.(timestamp := p, previousHash := q + "|" + r);
    assert |other.timestamp| < |h.timestamp|;
    HashTextUnfolds(c, h, nonce);
    HashTextUnfolds(c, other, nonce);
    var tail := h.merkleRoot + "|" + TextTail(c, h, nonce);
    assert h.timestamp + "|" + (r + "|" + tail) == p + "|" + ((q + "|" + r) + "|" + tail);
  }

  lemma PreviousHashShifts(c: Codec, h: Header, nonce: int, p: string, q: string)
    requires h.previousHash == p + "|" + q
    ensures SameText(c, h, h.(timestamp := h.timestamp + "|" + p, previousHash := q), nonce)
  {
    var other := h.(timestamp := h.timestamp + "|" + p, previousHash := q);
    assert |other.previousHash| < |h.previousHash|;
    HashTextUnfolds(c, h, nonce);
    HashTextUnfolds(c, other, nonce);
    var tail := h.merkleRoot + "|" + TextTail(c, h, nonce);
    assert h.timestamp + "|" + (h.previousHash + "|" + tail) == other.timestamp + "|" + (q + "|" + tail);
  }

  lemma MerkleRootShifts(c: Codec, h: Header, nonce: int, p: string, q: string)
    requires h.merkleRoot == p + "|" + q
    ensures SameText(c, h, h.(previousHash := h.previousHash + "|" + p, merkleRoot := q), nonce)
  {
    var other := h.(previousHash := h.previousHash + "|" + p, merkleRoot := q);
    assert |other.merkleRoot| < |h.merkleRoot|;
    HashTextUnfolds(c, h, nonce);
    HashTextUnfolds(c, other, nonce);
    var tail := TextTail(c, h, nonce);
    assert h.previousHash + "|" + (h.merkleRoot + "|" + tail) == other.previousHash + "|" + (q + "|" + tail);
  }

  /** What follows the Merkle root. */
  function TextTail(c: Codec, h: Header, nonce: int): string {
    NumberText(nonce) + "|" + c.txsText(h.transactions)
  }

  lemma HashTextUnfolds(c: Codec, h: Header, nonce: int)
    ensures HashText(c, h, nonce)
         == NumberText(h.index) + "|" + (h.timestamp + "|" + (h.previousHash + "|" + (h.merkleRoot + "|" + TextTail(c, h, nonce))))
  {
    var t2 := [NumberText(nonce), c.txsText(h.transactions)];
    var t3 := [h.merkleRoot] + t2;
    var t4 := [h.previousHash] + t3;
    var t5 := [h.timestamp] + t4;
    assert [NumberText(h.index)] + t5
        == [NumberText(h.index), h.timestamp, h.previousHash, h.merkleRoot, NumberText(nonce), c.txsText(h.transactions)];
    JoinPipesPrepends(NumberText(h.index), t5);
    JoinPipesPrepends(h.timestamp, t4);
    JoinPipesPrepends(h.previousHash, t3);
    JoinPipesPrepends(h.merkleRoot, t2);
    assert t2 == [NumberText(nonce)] + [c.txsText(h.transactions)];
    JoinPipesPrepends(NumberText(nonce), [c.txsText(h.transactions)]);
  }

  /** Where a text holds a separator. */
  lemma SplitsAtPipe(s: string) returns (p: string, q: string)
    requires '|' in s
    ensures s == p + "|" + q
  {
    var i :| 0 <= i < |s| && s[i] == '|';
    p, q := s[..i], s[i + 1..];
    assert s == s[..i] + [s[i]] + s[i + 1..];
  }

  /** A header with a separator in a leading field shares its hashed text with another one. */
  lemma SeparatorShifts(c: Codec, h: Header, nonce: int) returns (other: Header)
    requires !PipeFree(h)
    ensures SameText(c, h, other, nonce)
  {
    if '|' in h.timestamp {
      var p, q := SplitsAtPipe(h.timestamp);
      TimestampShifts(c, h, nonce, p, q);
      other := h.(timestamp := p, previousHash := q + "|" + h.previousHash);
    } else if '|' in h.previousHash {
      var p, q := SplitsAtPipe(h.previousHash);
      PreviousHashShifts(c, h, nonce, p, q);
      other := h.(timestamp := h.timestamp + "|" + p, previousHash := q);
    } else {
      var p, q := SplitsAtPipe(h.merkleRoot);
      MerkleRootShifts(c, h, nonce, p, q);
      other := h.(previousHash := h.previousHash + "|" + p, merkleRoot := q);
    }
  }

  // ---- Mining ----

  predicate MeetsDifficulty(digest: string) {
    DIFFICULTY <= |digest| && forall i :: 0 <= i < DIFFICULTY ==> digest[i] == '0'
  }

  predicate Meets(c: Codec, h: Header, nonce: int) {
    MeetsDifficulty(BlockHash(c, h, nonce))
  }

  datatype Mined = Mined(hash: string, nonce: nat)

  /**
   * What the search returns: the least nonce up to the cap whose hash meets the prefix, or, when
   * none does, the hash of the last nonce tried together with the nonce after it.
   */
  ghost predicate IsMined(c: Codec, h: Header, m: Mined) {
    if m.nonce <= MAX_NONCE then
      && Meets(c, h, m.nonce)
      && m.hash == BlockHash(c, h, m.nonce)
      && forall n :: 0 <= n < m.nonce ==> !Meets(c, h, n)
    else
      && m.nonce == MAX_NONCE + 1
      && m.hash == BlockHash(c, h, MAX_NONCE)
      && forall n :: 0 <= n <= MAX_NONCE ==> !Meets(c, h, n)
  }

  method MineBlock(c: Codec, h: Header) returns (m: Mined)
    ensures IsMined(c, h, m)
  {
    var nonce: nat := 0;
    while true
      invariant nonce <= MAX_NONCE
      invariant forall n :: 0 <= n < nonce ==> !Meets(c, h, n)
      decreases MAX_NONCE - nonce
    {
      var candidate := BlockHash(c, h, nonce);
      if MeetsDifficulty(candidate) {
        return Mined(candidate, nonce);
      }
      nonce := nonce + 1;
      if nonce > MAX_NONCE {
        return Mined(candidate, nonce);
      }
    }
  }

  lemma {:induction false} MiningEnds(c: Codec, h: Header, from: nat)
    requires from <= MAX_NONCE && forall n :: 0 <= n < from ==> !Meets(c, h, n)
    ensures exists m :: IsMined(c, h, m)
    decreases MAX_NONCE - from
  {
    if Meets(c, h, from) {
      assert IsMined(c, h, Mined(BlockHash(c, h, from), from));
    } else if from == MAX_NONCE {
      assert IsMined(c, h, Mined(BlockHash(c, h, from), from + 1));
    } else {
      MiningEnds(c, h, from + 1);
    }
  }

  lemma MiningDeterministic(c: Codec, h: Header, m: Mined, n: Mined)
    requires IsMined(c, h, m) && IsMined(c, h, n)
    ensures m == n
  {
  }

  ghost function Mine(c: Codec, h: Header): (m: Mined)
    ensures IsMined(c, h, m)
  {
    MiningEnds(c, h, 0);
    var m :| IsMined(c, h, m);
    m
  }

  // ---- Validation ----

  predicate LinkHolds(c: Codec, previous: Block, current: Block) {
    && current.header.previousHash == previous.hash
    && current.hash == BlockHash(c, current.header, current.nonce)
  }

  predicate ValidChain(c: Codec, chain: seq<Block>) {
    chain != [] ==>
      && chain[0].header.previousHash == ZeroHash()
      && forall i :: 1 <= i < |chain| ==> LinkHolds(c, chain[i - 1], chain[i])
  }

  method ValidateChain(c: Codec, chain: seq<Block>) returns (valid: bool)
    ensures valid == ValidChain(c, chain)
  {
    if |chain| == 0 {
      return true;
    }
    if chain[0].header.previousHash != ZeroHash() {
      return false;
    }
    for i := 1 to |chain|
      invariant forall k :: 1 <= k < i ==> LinkHolds(c, chain[k - 1], chain[k])
    {
      if chain[i].header.previousHash != chain[i - 1].hash {
        assert !LinkHolds(c, chain[i - 1], chain[i]);
        return false;
      }
      var expectedHash := BlockHash(c, chain[i].header, chain[i].nonce);
      if chain[i].hash != expectedHash {
        assert !LinkHolds(c, chain[i - 1], chain[i]);
        return false;
      }
    }
    return true;
  }

  predicate Indexed(chain: seq<Block>) {
    forall i :: 0 <= i < |chain| ==> chain[i].header.index == i
  }

  // ---- What the tip hash binds ----

  /** The texts whose hashes validation recomputes: every block but the first. */
  ghost function CheckedTexts(c: Codec, chain: seq<Block>): set<string> {
    set i | 1 <= i < |chain| :: HashText(c, chain[i].header, chain[i].nonce)
  }

  /** No separator in a timestamp or Merkle root after genesis, nor in the genesis hash when a block links to it. */
  predicate SeparatorFree(chain: seq<Block>) {
    && (forall i :: 1 <= i < |chain| ==> '|' !in chain[i].header.timestamp && '|' !in chain[i].header.merkleRoot)
    && (|chain| > 1 ==> '|' !in chain[0].hash)
  }

  lemma DigestHasNoPipe(c: Codec, text: string)
    requires Faithful(c)
    ensures '|' !in c.sha(text)
  {
    var d := c.sha(text);
    assert IsHexDigest(d);
    forall k | 0 <= k < |d|
      ensures d[k] != '|'
    {
      assert IsHexDigit(d[k]);
    }
  }

  /** Every later link is a digest, so its header holds no separator either. */
  lemma LinkedHeaderIsPipeFree(c: Codec, chain: seq<Block>, i: nat)
    requires Faithful(c) && ValidChain(c, chain) && SeparatorFree(chain)
    requires 1 <= i < |chain|
    ensures PipeFree(chain[i].header)
  {
    assert LinkHolds(c, chain[i - 1], chain[i]);
    if i > 1 {
      assert LinkHolds(c, chain[i - 2], chain[i - 1]);
      DigestHasNoPipe(c, HashText(c, chain[i - 1].header, chain[i - 1].nonce));
    }
  }

  function Tip(chain: seq<Block>): Block
    requires chain != []
  {
    chain[|chain| - 1]
  }

  /** Two accepted chains that end in the same hash end in the same block, or give a collision. */
  lemma TipHashBindsTip(c: Codec, a: seq<Block>, b: seq<Block>)
    requires Faithful(c) && |a| > 1 && |b| > 1
    requires ValidChain(c, a) && ValidChain(c, b)
    requires SeparatorFree(a) && SeparatorFree(b)
    requires Tip(a).hash == Tip(b).hash
    ensures
      || (Tip(a) == Tip(b) && a[|a| - 2].hash == b[|b| - 2].hash)
      || CollisionBetween(c.sha, CheckedTexts(c, a), CheckedTexts(c, b))
  {
    var m, n := |a| - 1, |b| - 1;
    var s, t := HashText(c, a[m].header, a[m].nonce), HashText(c, b[n].header, b[n].nonce);
    assert LinkHolds(c, a[m - 1], a[m]) && LinkHolds(c, b[n - 1], b[n]);
    assert s in CheckedTexts(c, a) && t in CheckedTexts(c, b);
    LinkedHeaderIsPipeFree(c, a, m);
    LinkedHeaderIsPipeFree(c, b, n);
    if s == t {
      HashTextFaithful(c, a[m].header, a[m].nonce, b[n].header, b[n].nonce);
    }
  }

  lemma FrontIsAccepted(c: Codec, a: seq<Block>)
    requires |a| > 1 && ValidChain(c, a) && SeparatorFree(a)
    ensures ValidChain(c, a[..|a| - 1]) && SeparatorFree(a[..|a| - 1])
    ensures CheckedTexts(c, a[..|a| - 1]) <= CheckedTexts(c, a)
  {
    var front := a[..|a| - 1];
    forall i | 1 <= i < |front|
      ensures LinkHolds(c, front[i - 1], front[i])
    {
      assert LinkHolds(c, a[i - 1], a[i]);
    }
  }

  /** The shorter chain, after its first block, is the end of the longer one, and is linked to the same hash. */
  predicate EndsAlike(a: seq<Block>, b: seq<Block>)
    requires 0 < |a| <= |b|
  {
    var cut := |b| - |a|;
    a[1..] == b[cut + 1..] && a[0].hash == b[cut].hash
  }

  lemma OneBlockLonger(a: seq<Block>, b: seq<Block>)
    requires 1 < |a| <= |b| && Tip(a) == Tip(b)
    requires EndsAlike(a[..|a| - 1], b[..|b| - 1])
    ensures EndsAlike(a, b)
  {
    var fa, fb, cut := a[..|a| - 1], b[..|b| - 1], |b| - |a|;
    assert a[1..] == fa[1..] + [Tip(a)];
    assert b[cut + 1..] == fb[cut + 1..] + [Tip(b)];
  }

  /**
   * Two accepted chains of any lengths that end in the same hash agree, counted from the tip, on
   * every block after the shorter one's first and on the hash that block is linked to, or the texts
   * validation hashed hold a collision.
   */
  lemma {:induction false} TipHashBindsSuffix(c: Codec, a: seq<Block>, b: seq<Block>)
    requires Faithful(c) && 0 < |a| <= |b|
    requires ValidChain(c, a) && ValidChain(c, b)
    requires SeparatorFree(a) && SeparatorFree(b)
    requires Tip(a).hash == Tip(b).hash
    ensures EndsAlike(a, b) || CollisionBetween(c.sha, CheckedTexts(c, a), CheckedTexts(c, b))
    decreases |a|
  {
    if |a| == 1 {
      assert a[1..] == b[|b|..];
    } else {
      TipHashBindsTip(c, a, b);
      if Tip(a) == Tip(b) && a[|a| - 2].hash == b[|b| - 2].hash {
        var fa, fb := a[..|a| - 1], b[..|b| - 1];
        FrontIsAccepted(c, a);
        FrontIsAccepted(c, b);
        TipHashBindsSuffix(c, fa, fb);
        if EndsAlike(fa, fb) {
          OneBlockLonger(a, b);
        } else {
          CollisionGrows(c.sha, CheckedTexts(c, fa), CheckedTexts(c, fb), CheckedTexts(c, a), CheckedTexts(c, b));
        }
      }
    }
  }

  /** For equal lengths: every block after genesis and the genesis hash. */
  lemma TipHashBindsChain(c: Codec, a: seq<Block>, b: seq<Block>)
    requires Faithful(c) && |a| == |b| > 0
    requires ValidChain(c, a) && ValidChain(c, b)
    requires SeparatorFree(a) && SeparatorFree(b)
    requires Tip(a).hash == Tip(b).hash
    ensures
      || (a[1..] == b[1..] && a[0].hash == b[0].hash)
      || CollisionBetween(c.sha, CheckedTexts(c, a), CheckedTexts(c, b))
  {
    TipHashBindsSuffix(c, a, b);
  }

  /**
   * The index is hashed, so for chains with block i at index i the tip hash alone binds the length
   * too, as soon as both hold a block whose hash is checked.
   */
  lemma TipHashBindsIndexedChain(c: Codec, a: seq<Block>, b: seq<Block>)
    requires Faithful(c) && |a| > 1 && |b| > 1
    requires ValidChain(c, a) && ValidChain(c, b)
    requires SeparatorFree(a) && SeparatorFree(b)
    requires Indexed(a) && Indexed(b)
    requires Tip(a).hash == Tip(b).hash
    ensures
      || (|a| == |b| && a[1..] == b[1..] && a[0].hash == b[0].hash)
      || CollisionBetween(c.sha, CheckedTexts(c, a), CheckedTexts(c, b))
  {
    TipHashBindsTip(c, a, b);
    if Tip(a) == Tip(b) {
      assert Tip(a).header.index == |a| - 1 && Tip(b).header.index == |b| - 1;
      TipHashBindsSuffix(c, a, b);
    }
  }

  /** Genesis contents are not bound: any block with that hash and the zero link can stand first. */
  lemma GenesisContentsUnbound(c: Codec, chain: seq<Block>, genesis: Block)
    requires ValidChain(c, chain) && chain != []
    requires genesis.header.previousHash == ZeroHash() && genesis.hash == chain[0].hash
    ensures ValidChain(c, chain[0 := genesis]) && Tip(chain[0 := genesis]).hash == Tip(chain).hash
  {
    var other := chain[0 := genesis];
    forall i | 1 <= i < |chain|
      ensures LinkHolds(c, other[i - 1], other[i])
    {
      assert LinkHolds(c, chain[i - 1], chain[i]);
    }
  }

  /**
   * Nor is the length of chains that are not indexed: dropping the first k blocks of an accepted
   * chain and zeroing the link of the next one leaves an accepted chain with the same tip hash. Of
   * an indexed chain the result is indexed only when nothing was dropped.
   */
  lemma LengthUnbound(c: Codec, chain: seq<Block>, k: nat)
    requires ValidChain(c, chain) && k < |chain|
    ensures
      var first := chain[k].(header := chain[k].header.(previousHash := ZeroHash()));
      var shorter := [first] + chain[k + 1..];
      && ValidChain(c, shorter) && Tip(shorter).hash == Tip(chain).hash && |shorter| == |chain| - k
      && (Indexed(chain) ==> (Indexed(shorter) <==> k == 0))
  {
    var first := chain[k].(header := chain[k].header.(previousHash := ZeroHash()));
    var shorter := [first] + chain[k + 1..];
    forall i | 1 <= i < |shorter|
      ensures LinkHolds(c, shorter[i - 1], shorter[i])
    {
      assert LinkHolds(c, chain[k + i - 1], chain[k + i]);
    }
    assert shorter[0].header.index == chain[k].header.index;
  }

  /** One block alone has no checked hash: some indexed chain of length one is accepted with any tip hash. */
  lemma SingleBlockUnbound(c: Codec, tip: string, timestamp: string, txs: seq<Tx>, root: string, nonce: int)
    ensures
      var single := [Block(Header(0, timestamp, txs, ZeroHash(), root), nonce, tip)];
      ValidChain(c, single) && Indexed(single) && Tip(single).hash == tip
  {
  }

  /**
   * Another chain that is accepted with the same tip hash, hashes no further text when validated,
   * but differs in its second block from the block of `a` equally far from the tip.
   */
  ghost predicate Rivals(c: Codec, a: seq<Block>, b: seq<Block>) {
    && ValidChain(c, b) && 1 < |b| <= |a| && Tip(b).hash == Tip(a).hash
    && CheckedTexts(c, b) <= CheckedTexts(c, a)
    && b[1] != a[|a| - |b| + 1] && b[2..] == a[|a| - |b| + 2..]
  }

  lemma ReplacedBlockRivals(c: Codec, a: seq<Block>, i: nat, shifted: Header)
    requires ValidChain(c, a) && 1 <= i < |a| && SameText(c, a[i].header, shifted, a[i].nonce)
    ensures Rivals(c, a, [a[0].(hash := shifted.previousHash), Block(shifted, a[i].nonce, a[i].hash)] + a[i + 1..])
  {
    var second := Block(shifted, a[i].nonce, a[i].hash);
    var b := [a[0].(hash := shifted.previousHash), second] + a[i + 1..];
    assert LinkHolds(c, a[i - 1], a[i]);
    assert b[2..] == a[i + 1..] && |a| - |b| + 2 == i + 1;
    forall k | 1 <= k < |b|
      ensures LinkHolds(c, b[k - 1], b[k]) && HashText(c, b[k].header, b[k].nonce) in CheckedTexts(c, a)
    {
      if k == 1 {
        assert HashText(c, a[i].header, a[i].nonce) in CheckedTexts(c, a);
      } else {
        assert b[k] == a[i + k - 1] && b[k - 1].hash == a[i + k - 2].hash;
        assert LinkHolds(c, a[i + k - 2], a[i + k - 1]);
        assert HashText(c, a[i + k - 1].header, a[i + k - 1].nonce) in CheckedTexts(c, a);
      }
    }
  }

  /** A chain that does not meet the condition has a later header with a separator. */
  lemma SeparatorStands(c: Codec, a: seq<Block>) returns (i: nat)
    requires ValidChain(c, a) && !SeparatorFree(a)
    ensures 1 <= i < |a| && !PipeFree(a[i].header)
  {
    if |a| > 1 && '|' in a[0].hash {
      assert LinkHolds(c, a[0], a[1]);
      i := 1;
    } else {
      i :| 1 <= i < |a| && ('|' in a[i].header.timestamp || '|' in a[i].header.merkleRoot);
    }
  }

  /**
   * The condition on separators is needed, wherever it fails: every accepted chain that does not meet
   * it has a rival. What validation hashes for the rival is hashed for the chain too, so two texts of
   * theirs collide only if two texts of the chain itself do.
   */
  lemma SeparatorBreaksBinding(c: Codec, a: seq<Block>)
    requires ValidChain(c, a) && !SeparatorFree(a)
    ensures exists b :: Rivals(c, a, b)
  {
    var i := SeparatorStands(c, a);
    var shifted := SeparatorShifts(c, a[i].header, a[i].nonce);
    ReplacedBlockRivals(c, a, i, shifted);
  }

  lemma AlikeInSecondBlock(b: seq<Block>, a: seq<Block>)
    requires 1 < |b| <= |a|
    ensures EndsAlike(b, a) ==> b[1] == a[|a| - |b| + 1]
  {
    assert b[1] == b[1..][0] && a[|a| - |b| + 1] == a[|a| - |b| + 1..][0];
  }

  /** Among chains that meet the condition nothing rivals another one, unless two hashed texts collide. */
  lemma SeparatorFreeHasNoRival(c: Codec, a: seq<Block>, b: seq<Block>)
    requires Faithful(c) && ValidChain(c, a) && SeparatorFree(a) && SeparatorFree(b)
    requires Rivals(c, a, b)
    ensures CollisionBetween(c.sha, CheckedTexts(c, a), CheckedTexts(c, a))
  {
    TipHashBindsSuffix(c, b, a);
    AlikeInSecondBlock(b, a);
    CollisionGrows(c.sha, CheckedTexts(c, b), CheckedTexts(c, a), CheckedTexts(c, a), CheckedTexts(c, a));
  }

  // ---- New blocks ----

  ghost function NewHeader(c: Codec, previous: Block, txs: seq<Tx>, timestamp: string): Header {
    Header(previous.header.index + 1, timestamp, txs, previous.hash, RootOf(c, txs))
  }

  ghost function NewBlock(c: Codec, previous: Block, txs: seq<Tx>, timestamp: string): Block {
    var h := NewHeader(c, previous, txs, timestamp);
    Block(h, Mine(c, h).nonce, Mine(c, h).hash)
  }

  /** The search found a nonce before its cap. */
  ghost predicate MiningMet(c: Codec, previous: Block, txs: seq<Tx>, timestamp: string) {
    Mine(c, NewHeader(c, previous, txs, timestamp)).nonce <= MAX_NONCE
  }

  /** At the cap, the stored pair is consistent only if two neighbouring nonces hash alike. */
  ghost predicate CapNoncesCollide(c: Codec, h: Header) {
    BlockHash(c, h, MAX_NONCE) == BlockHash(c, h, MAX_NONCE + 1)
  }

  /**
   * Exactly when appending keeps a chain valid: the search met the prefix, or the texts of the cap
   * nonce and its successor collide.
   */
  lemma AppendValidExactly(c: Codec, chain: seq<Block>, txs: seq<Tx>, timestamp: string)
    requires chain != []
    ensures
      var previous := Tip(chain);
      ValidChain(c, chain + [NewBlock(c, previous, txs, timestamp)]) <==>
        && ValidChain(c, chain)
        && (MiningMet(c, previous, txs, timestamp) || CapNoncesCollide(c, NewHeader(c, previous, txs, timestamp)))
  {
    var previous := Tip(chain);
    var block := NewBlock(c, previous, txs, timestamp);
    var longer := chain + [block];
    assert LinkHolds(c, previous, block) <==>
      (MiningMet(c, previous, txs, timestamp) || CapNoncesCollide(c, NewHeader(c, previous, txs, timestamp)));
    forall i | 1 <= i < |chain|
      ensures LinkHolds(c, chain[i - 1], chain[i]) <==> LinkHolds(c, longer[i - 1], longer[i])
    {
    }
    assert longer[|chain| - 1] == previous && longer[|chain|] == block;
    if ValidChain(c, longer) {
      assert LinkHolds(c, longer[|chain| - 1], longer[|chain|]);
    }
  }

  /** Validation fails for one of three reasons: the first link, a later link, or a later hash. */
  lemma RejectedExactly(c: Codec, chain: seq<Block>)
    ensures !ValidChain(c, chain) <==>
      chain != [] && (!IsSixtyFourZeros(chain[0].header.previousHash) || exists i :: 1 <= i < |chain| && BrokenAt(c, chain, i))
  {
    if chain != [] && IsSixtyFourZeros(chain[0].header.previousHash) {
      assert chain[0].header.previousHash == ZeroHash();
    }
    forall i | 1 <= i < |chain|
      ensures LinkHolds(c, chain[i - 1], chain[i]) <==> !BrokenAt(c, chain, i)
    {
    }
  }

  predicate IsSixtyFourZeros(s: string) {
    |s| == 64 && forall k :: 0 <= k < 64 ==> s[k] == '0'
  }

  /** The block does not name the hash before it, or its own hash is not the digest of its joined fields. */
  predicate BrokenAt(c: Codec, chain: seq<Block>, i: nat)
    requires 1 <= i < |chain|
  {
    var h := chain[i].header;
    || h.previousHash != chain[i - 1].hash
    || chain[i].hash != c.sha(JoinPipes([NumberText(h.index), h.timestamp, h.previousHash, h.merkleRoot,
                                         NumberText(chain[i].nonce), c.txsText(h.transactions)]))
  }

  /** The search meets the prefix exactly when some nonce from 0 to 500000 gives a hash that starts with two zeros. */
  lemma MiningMetExactly(c: Codec, previous: Block, txs: seq<Tx>, timestamp: string)
    ensures MiningMet(c, previous, txs, timestamp) <==>
      exists n :: 0 <= n <= 500_000 && "00" <= BlockHash(c, NewHeader(c, previous, txs, timestamp), n)
  {
    var h := NewHeader(c, previous, txs, timestamp);
    assert IsMined(c, h, Mine(c, h));
    if n :| 0 <= n <= 500_000 && "00" <= BlockHash(c, h, n) {
      assert Meets(c, h, n);
    }
    if MiningMet(c, previous, txs, timestamp) {
      assert "00" <= BlockHash(c, h, Mine(c, h).nonce);
    }
  }

  /** A block whose search met the prefix has a hash that starts with two zeros, at the least such nonce. */
  lemma MinedHashMeetsPrefix(c: Codec, previous: Block, txs: seq<Tx>, timestamp: string)
    requires MiningMet(c, previous, txs, timestamp)
    ensures
      var b := NewBlock(c, previous, txs, timestamp);
      && 0 <= b.nonce <= 500_000
      && b.hash == BlockHash(c, b.header, b.nonce)
      && b.hash[..2] == "00"
      && forall n :: 0 <= n < b.nonce ==> !("00" <= BlockHash(c, b.header, n))
  {
    var b := NewBlock(c, previous, txs, timestamp);
    assert IsMined(c, b.header, Mine(c, b.header));
    forall n | 0 <= n < b.nonce
      ensures !("00" <= BlockHash(c, b.header, n))
    {
      assert !Meets(c, b.header, n);
    }
  }

  /** The two texts that would have to collide at the cap are different texts. */
  lemma CapTextsDiffer(c: Codec, h: Header)
    requires Faithful(c) && PipeFree(h)
    ensures HashText(c, h, MAX_NONCE) != HashText(c, h, MAX_NONCE + 1)
  {
    if HashText(c, h, MAX_NONCE) == HashText(c, h, MAX_NONCE + 1) {
      HashTextFaithful(c, h, MAX_NONCE, h, MAX_NONCE + 1);
    }
  }
}
