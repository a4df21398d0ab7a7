/** The Merkle root of `hooks/useMICBlockchain.ts` (computeMerkleRoot). */
module Merkle {
  import opened Hashing
  import opened Wrappers

  /** The texts hashed to build the next level: neighbours joined, an odd last node joined to itself. */
  function Pairs(level: seq<string>): (ps: seq<string>)
    ensures |ps| == (|level| + 1) / 2
  {
    seq((|level| + 1) / 2, i requires 0 <= 2 * i < |level| =>
      level[2 * i] + (if 2 * i + 1 < |level| then level[2 * i + 1] else level[2 * i]))
  }

  function HashAll(sha: Hash, texts: seq<string>): (ds: seq<string>)
    ensures |ds| == |texts|
    ensures forall i :: 0 <= i < |texts| ==> ds[i] == sha(texts[i])
  {
    seq(|texts|, i requires 0 <= i < |texts| => sha(texts[i]))
  }

  function NextLevel(sha: Hash, level: seq<string>): (next: seq<string>)
    ensures |next| == (|level| + 1) / 2
  {
    HashAll(sha, Pairs(level))
  }

  /** Level by level, until one digest is left. */
  function Fold(sha: Hash, level: seq<string>): string
    requires |level| > 0
    decreases |level|
  {
    if |level| == 1 then level[0] else Fold(sha, NextLevel(sha, level))
  }

  // ---- The tree, described from its root ----

  function Pow2(h: nat): (p: nat)
    ensures p >= 1
  {
    if h == 0 then 1 else 2 * Pow2(h - 1)
  }

  /** The least height whose full tree has room for n leaves. */
  function Height(n: nat): (h: nat)
    ensures n <= Pow2(h)
    ensures h > 0 ==> Pow2(h - 1) < n
  {
    if n <= 1 then 0 else 1 + Height((n + 1) / 2)
  }

  /**
   * The root of the perfect binary tree of height h over these leaves, read top-down: the left
   * subtree takes the first half of the places, and a right subtree with no leaf of its own is a
   * copy of the left one.
   */
  function TreeRoot(sha: Hash, leaves: seq<string>, h: nat): string
    requires 1 <= |leaves| <= Pow2(h)
    decreases h
  {
    if h == 0 then leaves[0]
    else
      var half := Pow2(h - 1);
      if |leaves| <= half then
        var only := TreeRoot(sha, leaves, h - 1);
        sha(only + only)
      else
        sha(TreeRoot(sha, leaves[..half], h - 1) + TreeRoot(sha, leaves[half..], h - 1))
  }

  lemma NextLevelSplits(sha: Hash, leaves: seq<string>, k: nat)
    requires 2 * k <= |leaves|
    ensures NextLevel(sha, leaves[..2 * k]) == NextLevel(sha, leaves)[..k]
    ensures NextLevel(sha, leaves[2 * k..]) == NextLevel(sha, leaves)[k..]
  {
    assert Pairs(leaves[..2 * k]) == Pairs(leaves)[..k];
    assert Pairs(leaves[2 * k..]) == Pairs(leaves)[k..];
  }

  lemma {:induction false} TreeRootLowersOneLevel(sha: Hash, leaves: seq<string>, h: nat)
    requires 1 <= |leaves| <= Pow2(h + 1)
    ensures TreeRoot(sha, leaves, h + 1) == TreeRoot(sha, NextLevel(sha, leaves), h)
    decreases h
  {
    if h == 0 {
      TwoLeaves(sha, leaves);
    } else {
      var half := Pow2(h);
      if |leaves| <= half {
        TreeRootLowersOneLevel(sha, leaves, h - 1);
      } else {
        NextLevelSplits(sha, leaves, Pow2(h - 1));
        TreeRootLowersOneLevel(sha, leaves[..half], h - 1);
        TreeRootLowersOneLevel(sha, leaves[half..], h - 1);
      }
    }
  }

  lemma TwoLeaves(sha: Hash, leaves: seq<string>)
    requires 1 <= |leaves| <= 2
    ensures Pow2(1) == 2
    ensures TreeRoot(sha, leaves, 1) == TreeRoot(sha, NextLevel(sha, leaves), 0)
  {
    assert Pow2(1) == 2;
    if |leaves| == 2 {
      assert TreeRoot(sha, leaves[..1], 0) == leaves[0];
      assert TreeRoot(sha, leaves[1..], 0) == leaves[1];
    }
  }

  lemma {:induction false} FoldIsTreeRoot(sha: Hash, level: seq<string>)
    requires |level| > 0
    ensures Fold(sha, level) == TreeRoot(sha, level, Height(|level|))
    decreases |level|
  {
    if |level| == 1 {
    } else {
      var h := Height((|level| + 1) / 2);
      assert Height(|level|) == h + 1;
      FoldIsTreeRoot(sha, NextLevel(sha, level));
      TreeRootLowersOneLevel(sha, level, h);
    }
  }

  /** The root the source promises for the JSON texts of a block's transactions. */
  function MerkleRoot(sha: Hash, items: seq<string>): string {
    if items == [] then sha("empty")
    else TreeRoot(sha, HashAll(sha, items), Height(|items|))
  }

  /** The loop nest of the source. It ends because a level of two or more nodes shrinks. */
  method ComputeMerkleRoot(sha: Hash, items: seq<string>) returns (root: string)
    ensures root == MerkleRoot(sha, items)
  {
    if |items| == 0 {
      return sha("empty");
    }
    var level := HashAll(sha, items);
    while |level| > 1
      invariant |level| > 0
      invariant Fold(sha, level) == Fold(sha, HashAll(sha, items))
      decreases |level|
    {
      var next: seq<string> := [];
      var i := 0;
      while i < |level|
        invariant 0 <= i <= |level| + 1 && i == 2 * |next|
        invariant |next| <= |NextLevel(sha, level)|
        invariant next == NextLevel(sha, level)[..|next|]
      {
        var left := level[i];
        var right := if i + 1 < |level| then level[i + 1] else left;
        next := next + [sha(left + right)];
        i := i + 2;
      }
      assert next == NextLevel(sha, level);
      level := next;
    }
    FoldIsTreeRoot(sha, HashAll(sha, items));
    root := level[0];
  }

  /** The roots of the shortest lists, spelled out. */
  lemma SmallRoots(sha: Hash, a: string, b: string, c: string)
    ensures MerkleRoot(sha, []) == sha("empty")
    ensures MerkleRoot(sha, [a]) == sha(a)
    ensures MerkleRoot(sha, [a, b]) == sha(sha(a) + sha(b))
    ensures MerkleRoot(sha, [a, b, c]) == sha(sha(sha(a) + sha(b)) + sha(sha(c) + sha(c)))
  {
    var l1, l2, l3 := HashAll(sha, [a]), HashAll(sha, [a, b]), HashAll(sha, [a, b, c]);
    FoldIsTreeRoot(sha, l1);
    FoldIsTreeRoot(sha, l2);
    FoldIsTreeRoot(sha, l3);
    assert NextLevel(sha, l2) == [sha(sha(a) + sha(b))];
    var m := NextLevel(sha, l3);
    assert m == [sha(sha(a) + sha(b)), sha(sha(c) + sha(c))];
    assert NextLevel(sha, m) == [sha(m[0] + m[1])];
  }

  // ---- What is hashed ----

  function Members(texts: seq<string>): set<string> {
    set t | t in texts
  }

  /** Every text the loop hashes: the items, then level by level the pairs of digests. */
  function HashedTexts(sha: Hash, items: seq<string>): set<string>
    decreases |items|
  {
    if items == [] then {"empty"}
    else if |items| == 1 then Members(items)
    else Members(items) + HashedTexts(sha, Pairs(HashAll(sha, items)))
  }

  // ---- When two lists share a root ----

  /** A tree over texts; every node's text is hashed. */
  datatype Tree = Leaf(text: string) | Node(left: Tree, right: Tree)

  function Text(sha: Hash, t: Tree): string {
    match t
    case Leaf(text) => text
    case Node(l, r) => sha(Text(sha, l)) + sha(Text(sha, r))
  }

  function Texts(sha: Hash, t: Tree): set<string> {
    {Text(sha, t)} + if t.Leaf? then {} else Texts(sha, t.left) + Texts(sha, t.right)
  }

  function Leaves(t: Tree): seq<string> {
    if t.Leaf? then [t.text] else Leaves(t.left) + Leaves(t.right)
  }

  function Depth(t: Tree): nat {
    if t.Leaf? then 0 else 1 + Depth(t.left)
  }

  /** The perfect tree of height h over these items, with copies where the right half is empty. */
  function TreeOf(items: seq<string>, h: nat): (t: Tree)
    requires 1 <= |items| <= Pow2(h)
    ensures Depth(t) == h
    decreases h
  {
    if h == 0 then Leaf(items[0])
    else
      var half := Pow2(h - 1);
      if |items| <= half then Node(TreeOf(items, h - 1), TreeOf(items, h - 1))
      else Node(TreeOf(items[..half], h - 1), TreeOf(items[half..], h - 1))
  }

  /** The tree the source builds, if the list is not empty. */
  function TreeFor(items: seq<string>): Option<Tree> {
    if items == [] then None else Some(TreeOf(items, Height(|items|)))
  }

  lemma HashAllSplits(sha: Hash, items: seq<string>, k: nat)
    requires k <= |items|
    ensures HashAll(sha, items[..k]) == HashAll(sha, items)[..k]
    ensures HashAll(sha, items[k..]) == HashAll(sha, items)[k..]
  {
  }

  ghost predicate RootIsDigest(sha: Hash, items: seq<string>, h: nat)
    requires 1 <= |items| <= Pow2(h)
  {
    TreeRoot(sha, HashAll(sha, items), h) == sha(Text(sha, TreeOf(items, h)))
  }

  lemma HalvesGiveRoot(sha: Hash, items: seq<string>, h: nat)
    requires Pow2(h) < |items| <= Pow2(h + 1)
    requires RootIsDigest(sha, items[..Pow2(h)], h) && RootIsDigest(sha, items[Pow2(h)..], h)
    ensures RootIsDigest(sha, items, h + 1)
  {
    HashAllSplits(sha, items, Pow2(h));
  }

  lemma OneHalfGivesRoot(sha: Hash, items: seq<string>, h: nat)
    requires 1 <= |items| <= Pow2(h) && RootIsDigest(sha, items, h)
    ensures RootIsDigest(sha, items, h + 1)
  {
  }

  lemma LeafGivesRoot(sha: Hash, items: seq<string>)
    requires |items| == 1
    ensures RootIsDigest(sha, items, 0)
  {
  }

  lemma {:induction false} RootOfTree(sha: Hash, items: seq<string>, h: nat)
    requires 1 <= |items| <= Pow2(h)
    ensures RootIsDigest(sha, items, h)
    decreases h
  {
    if h == 0 {
      LeafGivesRoot(sha, items);
    } else {
      var k := h - 1;
      var half := Pow2(k);
      if |items| <= half {
        RootOfTree(sha, items, k);
        OneHalfGivesRoot(sha, items, k);
      } else {
        RootOfTree(sha, items[..half], k);
        RootOfTree(sha, items[half..], k);
        HalvesGiveRoot(sha, items, k);
      }
    }
  }

  /** The lower tree has the same top text, and with these further texts all the texts. */
  ghost predicate Lowers(sha: Hash, t: Tree, lower: Tree, further: set<string>) {
    Text(sha, t) == Text(sha, lower) && Texts(sha, t) <= further + Texts(sha, lower)
  }

  lemma NodeLowers(sha: Hash, l: Tree, r: Tree, ll: Tree, lr: Tree, fl: set<string>, fr: set<string>, further: set<string>)
    requires Lowers(sha, l, ll, fl) && Lowers(sha, r, lr, fr) && fl <= further && fr <= further
    ensures Lowers(sha, Node(l, r), Node(ll, lr), further)
  {
  }

  lemma MembersOfSlices(items: seq<string>, k: nat)
    requires k <= |items|
    ensures Members(items[..k]) <= Members(items) && Members(items[k..]) <= Members(items)
  {
  }

  lemma PairsSplit(sha: Hash, items: seq<string>, k: nat)
    requires 2 * k <= |items|
    ensures Pairs(HashAll(sha, items[..2 * k])) == Pairs(HashAll(sha, items))[..k]
    ensures Pairs(HashAll(sha, items[2 * k..])) == Pairs(HashAll(sha, items))[k..]
  {
    HashAllSplits(sha, items, 2 * k);
  }

  lemma LowestPair(sha: Hash, items: seq<string>)
    requires 1 <= |items| <= 2
    ensures Pow2(1) == 2 && |Pairs(HashAll(sha, items))| == 1
    ensures Lowers(sha, TreeOf(items, 1), TreeOf(Pairs(HashAll(sha, items)), 0), Members(items))
  {
    assert Pow2(1) == 2 && Pow2(0) == 1;
    var t := TreeOf(items, 1);
    assert t.left == Leaf(items[0]) && t.right == Leaf(items[|items| - 1]);
    assert items[0] in Members(items) && items[|items| - 1] in Members(items);
  }

  lemma {:induction false} TreeLowersOneLevel(sha: Hash, items: seq<string>, h: nat)
    requires 1 <= |items| <= Pow2(h + 1)
    ensures Lowers(sha, TreeOf(items, h + 1), TreeOf(Pairs(HashAll(sha, items)), h), Members(items))
    decreases h
  {
    var half := Pow2(h);
    if h == 0 {
      LowestPair(sha, items);
    } else if |items| <= half {
      TreeLowersOneLevel(sha, items, h - 1);
      var t, low := TreeOf(items, h), TreeOf(Pairs(HashAll(sha, items)), h - 1);
      NodeLowers(sha, t, t, low, low, Members(items), Members(items), Members(items));
    } else {
      PairsSplit(sha, items, Pow2(h - 1));
      MembersOfSlices(items, half);
      TreeLowersOneLevel(sha, items[..half], h - 1);
      TreeLowersOneLevel(sha, items[half..], h - 1);
      NodeLowers(sha, TreeOf(items[..half], h), TreeOf(items[half..], h),
                 TreeOf(Pairs(HashAll(sha, items[..half])), h - 1), TreeOf(Pairs(HashAll(sha, items[half..])), h - 1),
                 Members(items[..half]), Members(items[half..]), Members(items));
    }
  }

  /** The loop hashes every text of the tree. */
  lemma {:induction false} TreeTextsAreHashed(sha: Hash, items: seq<string>)
    requires items != []
    ensures Texts(sha, TreeOf(items, Height(|items|))) <= HashedTexts(sha, items)
    decreases |items|
  {
    if |items| == 1 {
      assert items[0] in Members(items);
    } else {
      var pairs := Pairs(HashAll(sha, items));
      assert Height(|items|) == Height(|pairs|) + 1;
      TreeTextsAreHashed(sha, pairs);
      TreeLowersOneLevel(sha, items, Height(|pairs|));
    }
  }

  lemma RootOfItems(sha: Hash, items: seq<string>)
    requires items != []
    ensures MerkleRoot(sha, items) == sha(Text(sha, TreeFor(items).value))
    ensures Texts(sha, TreeFor(items).value) <= HashedTexts(sha, items)
  {
    RootOfTree(sha, items, Height(|items|));
    TreeTextsAreHashed(sha, items);
  }

  predicate StartsWithBrace(text: string) {
    text != [] && text[0] == '{'
  }

  /** Every leaf's text starts with a brace, which no digest does. */
  predicate Braced(t: Tree) {
    if t.Leaf? then StartsWithBrace(t.text) else Braced(t.left) && Braced(t.right)
  }

  predicate AllBraced(items: seq<string>) {
    forall i :: 0 <= i < |items| ==> StartsWithBrace(items[i])
  }

  lemma {:induction false} TreeIsBraced(items: seq<string>, h: nat)
    requires AllBraced(items) && 1 <= |items| <= Pow2(h)
    ensures Braced(TreeOf(items, h))
    decreases h
  {
    if h == 0 {
    } else if |items| <= Pow2(h - 1) {
      TreeIsBraced(items, h - 1);
    } else {
      TreeIsBraced(items[..Pow2(h - 1)], h - 1);
      TreeIsBraced(items[Pow2(h - 1)..], h - 1);
    }
  }

  lemma InnerText(sha: Hash, t: Tree)
    requires RendersHex(sha) && t.Node?
    ensures |Text(sha, t)| == 128 && !StartsWithBrace(Text(sha, t))
    ensures Text(sha, t)[..64] == sha(Text(sha, t.left)) && Text(sha, t)[64..] == sha(Text(sha, t.right))
  {
    var l, r := sha(Text(sha, t.left)), sha(Text(sha, t.right));
    assert IsHexDigest(l) && IsHexDigest(r) && IsHexDigit(l[0]);
    assert Text(sha, t)[0] == l[0];
  }

  /** Trees of any depths whose top texts have the same digest are one tree, or their texts hold a collision. */
  lemma {:induction false} EqualRootsOneTree(sha: Hash, t: Tree, u: Tree)
    requires RendersHex(sha) && Braced(t) && Braced(u)
    requires sha(Text(sha, t)) == sha(Text(sha, u))
    ensures t == u || CollisionBetween(sha, Texts(sha, t), Texts(sha, u))
    decreases t
  {
    assert Text(sha, t) in Texts(sha, t) && Text(sha, u) in Texts(sha, u);
    if Text(sha, t) == Text(sha, u) {
      if t.Node? {
        InnerText(sha, t);
      }
      if u.Node? {
        InnerText(sha, u);
      }
      if t.Node? && u.Node? {
        EqualRootsOneTree(sha, t.left, u.left);
        EqualRootsOneTree(sha, t.right, u.right);
        if t.left != u.left {
          CollisionGrows(sha, Texts(sha, t.left), Texts(sha, u.left), Texts(sha, t), Texts(sha, u));
        } else if t.right != u.right {
          CollisionGrows(sha, Texts(sha, t.right), Texts(sha, u.right), Texts(sha, t), Texts(sha, u));
        }
      }
    }
  }

  lemma TopTextIsNotEmpty(sha: Hash, t: Tree)
    requires RendersHex(sha) && Braced(t)
    ensures Text(sha, t) != "empty"
  {
    if t.Leaf? {
      assert "empty"[0] == 'e';
    } else {
      InnerText(sha, t);
      assert |"empty"| == 5;
    }
  }

  lemma EmptyRoot(sha: Hash, ys: seq<string>)
    requires RendersHex(sha) && AllBraced(ys) && ys != []
    requires sha("empty") == MerkleRoot(sha, ys)
    ensures CollisionBetween(sha, {"empty"}, HashedTexts(sha, ys))
    ensures CollisionBetween(sha, HashedTexts(sha, ys), {"empty"})
  {
    var t := TreeFor(ys).value;
    RootOfItems(sha, ys);
    TreeIsBraced(ys, Height(|ys|));
    TopTextIsNotEmpty(sha, t);
    TwoTextsCollide(sha, "empty", Text(sha, t), HashedTexts(sha, ys));
  }

  lemma TwoTextsCollide(sha: Hash, a: string, b: string, texts: set<string>)
    requires a != b && sha(a) == sha(b) && b in texts
    ensures CollisionBetween(sha, {a}, texts) && CollisionBetween(sha, texts, {a})
  {
    assert a in {a};
  }

  /**
   * Lists of any lengths have the same root if the source builds the same tree for them, and only if
   * it does or the texts hashed for the two hold a collision.
   */
  lemma RootsShareExactly(sha: Hash, xs: seq<string>, ys: seq<string>)
    requires RendersHex(sha) && AllBraced(xs) && AllBraced(ys)
    ensures TreeFor(xs) == TreeFor(ys) ==> MerkleRoot(sha, xs) == MerkleRoot(sha, ys)
    ensures MerkleRoot(sha, xs) == MerkleRoot(sha, ys) ==>
      TreeFor(xs) == TreeFor(ys) || CollisionBetween(sha, HashedTexts(sha, xs), HashedTexts(sha, ys))
  {
    if xs == [] || ys == [] {
      if ys != [] && sha("empty") == MerkleRoot(sha, ys) {
        EmptyRoot(sha, ys);
      } else if xs != [] && sha("empty") == MerkleRoot(sha, xs) {
        EmptyRoot(sha, xs);
      }
    } else {
      RootOfItems(sha, xs);
      RootOfItems(sha, ys);
      var t, u := TreeFor(xs).value, TreeFor(ys).value;
      if t != u && MerkleRoot(sha, xs) == MerkleRoot(sha, ys) {
        TreeIsBraced(xs, Height(|xs|));
        TreeIsBraced(ys, Height(|ys|));
        EqualRootsOneTree(sha, t, u);
        CollisionGrows(sha, Texts(sha, t), Texts(sha, u), HashedTexts(sha, xs), HashedTexts(sha, ys));
      }
    }
  }

  /** The leaves are as many as the places, and start with the items. */
  ghost predicate Holds(t: Tree, items: seq<string>, places: nat) {
    |Leaves(t)| == places && items <= Leaves(t)
  }

  lemma NodeHolds(l: Tree, r: Tree, left: seq<string>, right: seq<string>, half: nat)
    requires Holds(l, left, half) && Holds(r, right, half)
    ensures Holds(Node(l, r), left, 2 * half)
    ensures |left| == half ==> Holds(Node(l, r), left + right, 2 * half)
  {
  }

  lemma {:induction false} LeavesStartWithItems(items: seq<string>, h: nat)
    requires 1 <= |items| <= Pow2(h)
    ensures Holds(TreeOf(items, h), items, Pow2(h))
    decreases h
  {
    if h == 0 {
    } else if |items| <= Pow2(h - 1) {
      LeavesStartWithItems(items, h - 1);
      NodeHolds(TreeOf(items, h - 1), TreeOf(items, h - 1), items, items, Pow2(h - 1));
    } else {
      var l, r := items[..Pow2(h - 1)], items[Pow2(h - 1)..];
      LeavesStartWithItems(l, h - 1);
      LeavesStartWithItems(r, h - 1);
      NodeHolds(TreeOf(l, h - 1), TreeOf(r, h - 1), l, r, Pow2(h - 1));
      assert items == l + r;
    }
  }

  /** Of two lists with one tree the shorter is the start of the longer, and equally long ones are equal. */
  lemma OneTreeNests(xs: seq<string>, ys: seq<string>)
    requires TreeFor(xs) == TreeFor(ys) && |xs| <= |ys|
    ensures xs <= ys && Height(|xs|) == Height(|ys|)
  {
    if xs == [] || ys == [] {
    } else {
      LeavesStartWithItems(xs, Height(|xs|));
      LeavesStartWithItems(ys, Height(|ys|));
    }
  }

  // ---- Lists that do share one ----

  lemma {:induction false} BlockDivides(j: nat, h: nat)
    requires j <= h
    ensures Pow2(h) % Pow2(j) == 0
    decreases h
  {
    if h == j {
    } else {
      BlockDivides(j, h - 1);
      TwiceDivides(Pow2(h - 1), Pow2(j));
    }
  }

  lemma TwiceDivides(a: nat, p: nat)
    requires p > 0 && a % p == 0
    ensures (2 * a) % p == 0
  {
    var q := a / p;
    assert a == q * p;
    assert 2 * a == (2 * q) * p + 0;
    Remainder(2 * a, 2 * q, p, 0);
  }

  lemma Products(d: int, p: int)
    requires p >= 0
    ensures d >= 1 ==> d * p >= p
    ensures d <= -1 ==> d * p <= -p
  {
    if d >= 1 {
      assert d * p == (d - 1) * p + p;
    } else if d <= -1 {
      assert d * p == (d + 1) * p - p;
    }
  }

  lemma Remainder(n: int, q: int, p: nat, r: nat)
    requires n == q * p + r && r < p
    ensures n % p == r
  {
    var d := n / p - q;
    assert n == (n / p) * p + n % p;
    assert d * p == (n / p) * p - q * p;
    Products(d, p);
  }

  /** In pairs of blocks of size p, a half holds whole pairs and the items end with a single block. */
  lemma HalfHoldsWholePairs(n: nat, half: nat, p: nat)
    requires p > 0 && n % (2 * p) == p && half % (2 * p) == 0
    ensures n <= half ==> n + p <= half
    ensures n > half ==> (n - half) % (2 * p) == p && n - half >= p
  {
    var u := 2 * p;
    var a, b := n / u, half / u;
    assert n == a * u + p && half == b * u;
    assert (a - b) * u == a * u - b * u;
    Products(a - b, u);
    if n > half {
      Remainder(n - half, a - b, u, p);
    }
  }

  /** The items with their last p items repeated. */
  function Repeated(items: seq<string>, p: nat): (longer: seq<string>)
    requires p <= |items|
    ensures |longer| == |items| + p
  {
    items + items[|items| - p..]
  }

  lemma RepeatedInRightHalf(items: seq<string>, half: nat, p: nat)
    requires half <= |items| && p <= |items| - half
    ensures Repeated(items, p)[..half] == items[..half]
    ensures Repeated(items, p)[half..] == Repeated(items[half..], p)
  {
    assert items[half..][|items| - half - p..] == items[|items| - p..];
  }

  lemma RepeatedWhole(items: seq<string>)
    ensures Repeated(items, |items|)[..|items|] == items && Repeated(items, |items|)[|items|..] == items
  {
    assert items[0..] == items;
  }

  /**
   * When the items end with a single block of 2^j items where a pair of blocks has room, repeating
   * that block leaves the tree as it was.
   */
  lemma {:induction false} RepeatedBlockKeepsTree(items: seq<string>, j: nat, h: nat)
    requires |items| % (2 * Pow2(j)) == Pow2(j) && Pow2(j) <= |items| <= Pow2(h)
    requires h > j
    ensures |items| + Pow2(j) <= Pow2(h)
    ensures TreeOf(Repeated(items, Pow2(j)), h) == TreeOf(items, h)
    decreases h
  {
    var p, half := Pow2(j), Pow2(h - 1);
    if h == j + 1 {
      SingleBlock(|items|, p);
      RepeatedWhole(items);
    } else {
      BlockDivides(j + 1, h - 1);
      assert Pow2(j + 1) == 2 * p;
      HalfHoldsWholePairs(|items|, half, p);
      if |items| <= half {
        RepeatedBlockKeepsTree(items, j, h - 1);
      } else {
        RepeatedBlockKeepsTree(items[half..], j, h - 1);
        RepeatedInRightHalf(items, half, p);
      }
    }
  }

  lemma SingleBlock(n: nat, p: nat)
    requires p > 0 && n <= 2 * p && n % (2 * p) == p
    ensures n == p
  {
    if n == 2 * p {
      Remainder(n, 1, 2 * p, 0);
    }
  }

  lemma RepeatedBlockKeepsHeight(n: nat, m: nat, h: nat)
    requires Height(n) == h && n <= m <= Pow2(h)
    ensures Height(m) == h
  {
    if Height(m) < h {
      Pow2Grows(Height(m), h - 1);
    } else if Height(m) > h {
      Pow2Grows(h, Height(m) - 1);
    }
  }

  lemma {:induction false} Pow2Grows(a: nat, b: nat)
    requires a <= b
    ensures Pow2(a) <= Pow2(b)
    decreases b
  {
    if a == b {
    } else {
      Pow2Grows(a, b - 1);
    }
  }

  /**
   * Whenever a list of more than 2^j items ends with a single block of 2^j, the list with that block
   * repeated has the same tree and root: for j = 0 every list of odd length three or more.
   */
  lemma RepeatedBlockKeepsRoot(sha: Hash, items: seq<string>, j: nat)
    requires |items| > Pow2(j) && |items| % (2 * Pow2(j)) == Pow2(j)
    ensures TreeFor(Repeated(items, Pow2(j))) == TreeFor(items)
    ensures MerkleRoot(sha, Repeated(items, Pow2(j))) == MerkleRoot(sha, items)
  {
    var h, longer := Height(|items|), Repeated(items, Pow2(j));
    if h <= j {
      Pow2Grows(h, j);
    }
    RepeatedBlockKeepsTree(items, j, h);
    RepeatedBlockKeepsHeight(|items|, |longer|, h);
    RootOfItems(sha, items);
    RootOfItems(sha, longer);
  }
}
