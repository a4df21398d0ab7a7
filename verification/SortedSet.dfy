/** The Redis sorted-set commands `api/redis_bridge.py` uses, and what trimming by rank keeps. */
module SortedSet {
  import opened Sequences
  import opened StringOrder

  /** Members with their scores; equal scores are ordered by member. */
  type ZSet = map<string, int>

  predicate Above(z: ZSet, x: string, y: string)
    requires x in z && y in z
  {
    z[x] > z[y] || (z[x] == z[y] && Less(y, x))
  }

  function Higher(z: ZSet, x: string): set<string>
    requires x in z
  {
    set y | y in z && Above(z, y, x)
  }

  function Lower(z: ZSet, x: string): set<string>
    requires x in z
  {
    set y | y in z && Above(z, x, y)
  }

  /** ZREMRANGEBYRANK: ranks count from the lowest member, negative bounds from the highest. */
  function ZRemRangeByRank(z: ZSet, start: int, stop: int): ZSet {
    var lo := if start < 0 then start + |z| else start;
    var hi := if stop < 0 then stop + |z| else stop;
    map x | x in z && !(lo <= |Lower(z, x)| <= hi) :: z[x]
  }

  /** The k greatest members. */
  function Top(z: ZSet, k: nat): ZSet {
    map x | x in z && |Higher(z, x)| < k :: z[x]
  }

  /** All members, greatest first. */
  function Descending(z: ZSet): seq<string>
    decreases |z|
  {
    if z == map[] then []
    else
      MaximumExists(z);
      MaximumUnique(z);
      var top :| top in z && Higher(z, top) == {};
      assert |z - {top}| < |z| by { RemovalShrinks(z, top); }
      [top] + Descending(z - {top})
  }

  /** ZREVRANGE key 0 stop, for a stop that is not negative. */
  function ZRevRange(z: ZSet, stop: nat): seq<string> {
    Prefix(Descending(z), stop + 1)
  }

  // ---- The order ----

  lemma AboveTotal(z: ZSet, x: string, y: string)
    requires x in z && y in z
    ensures x != y ==> (Above(z, x, y) <==> !Above(z, y, x))
    ensures !Above(z, x, x)
  {
    LessTotal(x, y);
  }

  lemma AboveTransitive(z: ZSet, x: string, y: string, w: string)
    requires x in z && y in z && w in z
    requires Above(z, x, y) && Above(z, y, w)
    ensures Above(z, x, w)
  {
    if z[x] == z[y] == z[w] {
      LessTransitive(w, y, x);
    }
  }

  lemma {:induction false} SubsetCard<T>(a: set<T>, b: set<T>)
    requires a <= b
    ensures |a| <= |b|
    ensures a != b ==> |a| < |b|
    decreases |a|
  {
    if a == {} {
    } else {
      var x :| x in a;
      SubsetCard(a - {x}, b - {x});
      if a != b {
        assert a - {x} != b - {x} by {
          var y :| y in b && y !in a;
          assert y in b - {x} && y !in a - {x};
        }
      }
    }
  }

  lemma RemovalShrinks(z: ZSet, x: string)
    requires x in z
    ensures |z - {x}| == |z| - 1
  {
    assert (z - {x}).Keys == z.Keys - {x};
    assert |z - {x}| == |(z - {x}).Keys|;
  }

  /** Whoever is greatest without x, it or x has nobody new above it. */
  lemma GreatestOfTwo(z: ZSet, x: string, t: string)
    requires x in z && t in z - {x}
    ensures if Above(z, t, x) then Higher(z, t) <= Higher(z - {x}, t) else Higher(z, x) <= Higher(z - {x}, t)
  {
    AboveTotal(z, x, t);
    AboveTotal(z, x, x);
    if Above(z, t, x) {
      assert x !in Higher(z, t);
    } else {
      forall y | y in Higher(z, x)
        ensures y in Higher(z - {x}, t)
      {
        AboveTransitive(z, y, x, t);
      }
    }
  }

  lemma {:induction false} MaximumExists(z: ZSet)
    requires z != map[]
    ensures exists top :: top in z && Higher(z, top) == {}
    decreases |z|
  {
    var x :| x in z;
    var rest := z - {x};
    if rest == map[] {
      assert z.Keys == {x};
      AboveTotal(z, x, x);
      assert Higher(z, x) == {};
    } else {
      RemovalShrinks(z, x);
      MaximumExists(rest);
      var t :| t in rest && Higher(rest, t) == {};
      GreatestOfTwo(z, x, t);
      assert Higher(z, t) == {} || Higher(z, x) == {};
    }
  }

  lemma OneIsAbove(z: ZSet, s: string, t: string)
    requires s in z && t in z && s != t
    ensures s in Higher(z, t) || t in Higher(z, s)
  {
    AboveTotal(z, s, t);
  }

  lemma MaximumUnique(z: ZSet)
    ensures forall s, t :: s in z && t in z && Higher(z, s) == {} && Higher(z, t) == {} ==> s == t
  {
    forall s, t | s in z && t in z && s != t
      ensures Higher(z, s) != {} || Higher(z, t) != {}
    {
      OneIsAbove(z, s, t);
    }
  }

  // ---- Trimming keeps the greatest ----

  lemma HigherAndLower(z: ZSet, x: string)
    requires x in z
    ensures |Higher(z, x)| + |Lower(z, x)| + 1 == |z|
  {
    var h, l := Higher(z, x), Lower(z, x);
    forall y | y in z
      ensures y != x ==> (y in h <==> y !in l)
    {
      AboveTotal(z, x, y);
    }
    AboveTotal(z, x, x);
    assert h !! l && x !in h + l;
    assert h + l + {x} == z.Keys;
    assert |h + l| == |h| + |l|;
    assert |h + l + {x}| == |h + l| + 1;
  }

  /** Removing ranks 0 to -(k + 1) leaves the k greatest members. */
  lemma TrimKeepsTop(z: ZSet, k: nat)
    ensures ZRemRangeByRank(z, 0, -(k + 1)) == Top(z, k)
  {
    forall x | x in z
      ensures x in ZRemRangeByRank(z, 0, -(k + 1)) <==> x in Top(z, k)
    {
      HigherAndLower(z, x);
    }
  }

  lemma HigherWithoutMaximum(z: ZSet, top: string, x: string)
    requires top in z && x in z && x != top && Higher(z, top) == {}
    ensures Higher(z, x) == Higher(z - {top}, x) + {top}
    ensures |Higher(z, x)| == |Higher(z - {top}, x)| + 1
  {
    AboveTotal(z, top, x);
    assert x !in Higher(z, top);
    var rest := z - {top};
    forall y
      ensures y in Higher(z, x) <==> y in Higher(rest, x) + {top}
    {
      if y in z && y != top {
        assert Above(z, y, x) <==> Above(rest, y, x);
      }
    }
    assert top !in Higher(rest, x);
  }

  lemma TopWithoutMaximum(z: ZSet, top: string, k: nat)
    requires top in z && Higher(z, top) == {} && k > 0
    ensures top in Top(z, k) && Top(z, k) - {top} == Top(z - {top}, k - 1)
  {
    forall x | x in z && x != top
      ensures x in Top(z, k) <==> x in Top(z - {top}, k - 1)
    {
      HigherWithoutMaximum(z, top, x);
    }
  }

  lemma DescendingUnfolds(z: ZSet, top: string)
    requires top in z && Higher(z, top) == {}
    ensures Descending(z) == [top] + Descending(z - {top})
    ensures |z - {top}| == |z| - 1
  {
    MaximumUnique(z);
    RemovalShrinks(z, top);
  }

  lemma {:induction false} DescendingIsComplete(z: ZSet)
    ensures |Descending(z)| == |z|
    decreases |z|
  {
    if z == map[] {
    } else {
      var top := SomeMaximum(z);
      DescendingUnfolds(z, top);
      DescendingIsComplete(z - {top});
    }
  }

  lemma TopOfNone(z: ZSet, k: nat)
    requires k == 0 || z == map[]
    ensures Top(z, k) == map[] && Descending(Top(z, k)) == [] && Prefix(Descending(z), k) == []
  {
    assert Top(z, k) == map[];
  }

  lemma TopListsStep(z: ZSet, top: string, k: nat)
    requires top in z && Higher(z, top) == {} && k > 0
    requires Descending(Top(z - {top}, k - 1)) == Prefix(Descending(z - {top}), k - 1)
    ensures Descending(Top(z, k)) == Prefix(Descending(z), k)
  {
    var rest, kept := z - {top}, Top(z, k);
    TopWithoutMaximum(z, top, k);
    MaximumOfTop(z, top, k);
    DescendingUnfolds(kept, top);
    DescendingUnfolds(z, top);
    PrefixPrepends(top, Descending(rest), k);
  }

  /** The k greatest members, listed, are the first k of the whole listing. */
  lemma {:induction false} TopListsPrefix(z: ZSet, k: nat)
    ensures Descending(Top(z, k)) == Prefix(Descending(z), k)
    decreases |z|
  {
    if k == 0 || z == map[] {
      TopOfNone(z, k);
    } else {
      var top := SomeMaximum(z);
      RemovalShrinks(z, top);
      TopListsPrefix(z - {top}, k - 1);
      TopListsStep(z, top, k);
    }
  }

  ghost function SomeMaximum(z: ZSet): (top: string)
    requires z != map[]
    ensures top in z && Higher(z, top) == {}
  {
    MaximumExists(z);
    var top :| top in z && Higher(z, top) == {};
    top
  }

  lemma MaximumOfTop(z: ZSet, top: string, k: nat)
    requires top in Top(z, k) && Higher(z, top) == {}
    ensures Higher(Top(z, k), top) == {}
  {
    assert Higher(Top(z, k), top) <= Higher(z, top);
  }

  lemma TopSize(z: ZSet, k: nat)
    ensures |Top(z, k)| == if k < |z| then k else |z|
  {
    TopListsPrefix(z, k);
    DescendingIsComplete(z);
    DescendingIsComplete(Top(z, k));
  }

  ghost predicate IsListing(z: ZSet, r: seq<string>) {
    && (forall x :: x in r <==> x in z)
    && (forall i, j :: 0 <= i < j < |r| ==> r[i] in z && r[j] in z && Above(z, r[i], r[j]))
  }

  lemma MaximumIsAbove(z: ZSet, top: string, x: string)
    requires top in z && x in z && x != top && Higher(z, top) == {}
    ensures Above(z, top, x)
  {
    OneIsAbove(z, top, x);
  }

  lemma ListingStep(z: ZSet, top: string, r: seq<string>)
    requires top in z && Higher(z, top) == {} && IsListing(z - {top}, r)
    ensures IsListing(z, [top] + r)
  {
    forall i | 0 <= i < |r|
      ensures r[i] in z - {top} && Above(z, top, r[i])
    {
      assert r[i] in r;
      MaximumIsAbove(z, top, r[i]);
    }
  }

  /** The listing is in order and complete. */
  lemma {:induction false} DescendingIsOrdered(z: ZSet)
    ensures IsListing(z, Descending(z))
    decreases |z|
  {
    if z == map[] {
    } else {
      var top := SomeMaximum(z);
      DescendingUnfolds(z, top);
      DescendingIsOrdered(z - {top});
      ListingStep(z, top, Descending(z - {top}));
    }
  }

  /** Scores fall along the listing, and members of one score follow in falling dictionary order. */
  lemma ScoresFall(z: ZSet, i: nat, j: nat)
    requires i < j < |Descending(z)|
    ensures
      var x, y := Descending(z)[i], Descending(z)[j];
      x in z && y in z && (z[x] > z[y] || (z[x] == z[y] && exists k: nat :: SmallerAt(y, x, k)))
  {
    DescendingIsOrdered(z);
    LessExactly(Descending(z)[j], Descending(z)[i]);
  }

  // ---- Trimming after every insertion ----

  /** A member outside the k greatest has k members above it, and every kept member is above it. */
  lemma KeptAreAbove(z: ZSet, k: nat, y: string)
    requires y in z && y !in Top(z, k)
    ensures |Top(z, k)| == k
    ensures forall t :: t in Top(z, k) ==> Above(z, t, y)
  {
    TopSize(z, k);
    HigherAndLower(z, y);
    forall t | t in Top(z, k)
      ensures Above(z, t, y)
    {
      AboveTotal(z, t, y);
      if Above(z, y, t) {
        forall u | u in Higher(z, y)
          ensures u in Higher(z, t)
        {
          AboveTransitive(z, u, y, t);
        }
        SubsetCard(Higher(z, y), Higher(z, t));
      }
    }
  }

  /**
   * Inserting into the k greatest and trimming again gives the k greatest of the untrimmed set with
   * that insertion, provided the member's score does not go down.
   */
  lemma TrimCommutesWithInsert(z: ZSet, k: nat, m: string, s: int)
    requires m in z ==> z[m] <= s
    ensures Top(Top(z, k)[m := s], k) == Top(z[m := s], k)
  {
    var t1, z1 := Top(z, k)[m := s], z[m := s];
    forall x | x in z1 && |Higher(z1, x)| < k
      ensures x in t1 && |Higher(t1, x)| < k
    {
      if x != m {
        forall y | y in Higher(z, x)
          ensures y in Higher(z1, x)
        {
        }
        SubsetCard(Higher(z, x), Higher(z1, x));
      }
      forall y | y in Higher(t1, x)
        ensures y in Higher(z1, x)
      {
      }
      SubsetCard(Higher(t1, x), Higher(z1, x));
    }
    forall x | x in t1 && |Higher(z1, x)| >= k
      ensures |Higher(t1, x)| >= k
    {
      TrimmedMembersStayBelow(z, k, m, s, x);
    }
    assert forall x :: x in t1 ==> x in z1 && t1[x] == z1[x];
  }

  lemma TrimmedMembersStayBelow(z: ZSet, k: nat, m: string, s: int, x: string)
    requires m in z ==> z[m] <= s
    requires x in Top(z, k)[m := s] && |Higher(z[m := s], x)| >= k
    ensures |Higher(Top(z, k)[m := s], x)| >= k
  {
    var t, t1, z1 := Top(z, k), Top(z, k)[m := s], z[m := s];
    if Higher(z1, x) <= Higher(t1, x) {
      SubsetCard(Higher(z1, x), Higher(t1, x));
    } else {
      var y :| y in Higher(z1, x) && y !in Higher(t1, x);
      assert y !in t1;
      KeptAreAbove(z, k, y);
      forall u | u in t
        ensures u in Higher(t1, x)
      {
        assert Above(z1, u, y);
        AboveTransitive(z1, u, y, x);
        AboveTotal(z1, x, x);
      }
      SubsetCard(t.Keys, Higher(t1, x));
      assert |t| == |t.Keys|;
    }
  }

  // ---- Exactly when trimming commutes with an insertion ----

  /** Somebody stands at every rank below the size. */
  lemma {:induction false} RankIsTaken(z: ZSet, k: nat)
    requires k < |z|
    ensures exists y :: y in z && |Higher(z, y)| == k
    decreases |z|
  {
    var top := SomeMaximum(z);
    RemovalShrinks(z, top);
    if k == 0 {
      assert |Higher(z, top)| == 0;
    } else {
      RankIsTaken(z - {top}, k - 1);
      var y :| y in z - {top} && |Higher(z - {top}, y)| == k - 1;
      HigherWithoutMaximum(z, top, y);
    }
  }

  /** The first member left out is above everyone else left out. */
  lemma FirstLeftOut(z: ZSet, k: nat, first: string, y: string)
    requires first in z && |Higher(z, first)| == k
    requires y in z && y !in Top(z, k) && y != first
    ensures Above(z, first, y)
  {
    AboveTotal(z, first, y);
    if Above(z, y, first) {
      HigherGrows(z, y, first);
    }
  }

  /** Going down the order, strictly more members are above. */
  lemma HigherGrows(z: ZSet, y: string, x: string)
    requires x in z && y in z && Above(z, y, x)
    ensures |Higher(z, y)| < |Higher(z, x)|
  {
    forall u | u in Higher(z, y)
      ensures u in Higher(z, x)
    {
      AboveTransitive(z, u, y, x);
    }
    AboveTotal(z, y, y);
    assert y in Higher(z, x) && y !in Higher(z, y);
    SubsetCard(Higher(z, y), Higher(z, x));
  }

  /** A set of k members that are all above everyone else is what trimming keeps. */
  lemma KeptSetIsTop(z: ZSet, kept: ZSet, k: nat)
    requires |kept| == k
    requires forall x :: x in kept ==> x in z && kept[x] == z[x]
    requires forall x, y :: x in kept && y in z && y !in kept ==> Above(z, x, y)
    ensures Top(z, k) == kept
  {
    assert |kept| == |kept.Keys|;
    forall x | x in z
      ensures |Higher(z, x)| < k <==> x in kept
    {
      if x in kept {
        forall y | y in Higher(z, x)
          ensures y in kept.Keys - {x}
        {
          AboveTotal(z, x, y);
          AboveTotal(z, x, x);
        }
        SubsetCard(Higher(z, x), kept.Keys - {x});
        SubsetCard(kept.Keys - {x}, kept.Keys);
      } else {
        assert kept.Keys <= Higher(z, x);
        SubsetCard(kept.Keys, Higher(z, x));
      }
    }
  }

  /** The member that a lowered score lets back in stands right below the kept ones. */
  ghost predicate Overtakes(z: ZSet, k: nat, m: string, s: int, y: string) {
    y in z && |Higher(z, y)| == k && Above(z[m := s], y, m)
  }

  /** A score lowered for a member that was not kept changes nothing. */
  lemma LoweringOutsiderCommutes(z: ZSet, k: nat, m: string, s: int)
    requires m in z && m !in Top(z, k) && s < z[m]
    ensures Top(Top(z, k)[m := s], k) == Top(z[m := s], k)
  {
    var kept, t1, z1 := Top(z, k), Top(z, k)[m := s], z[m := s];
    KeptAreAbove(z, k, m);
    forall x, y | x in kept && y in z1 && y !in kept
      ensures Above(z1, x, y)
    {
      KeptAreAbove(z, k, y);
    }
    KeptSetIsTop(z1, kept, k);
    assert forall x :: x in kept ==> Above(t1, x, m) by {
      assert forall x :: x in kept ==> Above(z1, x, m);
    }
    KeptSetIsTop(t1, kept, k);
  }

  /** A lowered score of a kept member changes nothing while it stays above the first one left out. */
  lemma LoweringKeptCommutes(z: ZSet, k: nat, m: string, s: int)
    requires m in Top(z, k) && s < z[m]
    requires forall y :: !Overtakes(z, k, m, s, y)
    ensures Top(Top(z, k)[m := s], k) == Top(z[m := s], k)
  {
    var kept, z1 := Top(z, k)[m := s], z[m := s];
    assert kept.Keys == Top(z, k).Keys;
    TopSize(z, k);
    assert |kept| == |kept.Keys| == |Top(z, k).Keys| == |Top(z, k)|;
    if |z| <= k {
      SubsetCard(kept.Keys, z.Keys);
      assert |z.Keys| == |z|;
      assert kept == z1;
    } else {
      RankIsTaken(z, k);
      var first :| first in z && |Higher(z, first)| == k;
      KeptAreAbove(z, k, first);
      assert !Overtakes(z, k, m, s, first);
      AboveTotal(z1, m, first);
      forall x, y | x in kept && y in z1 && y !in kept
        ensures Above(z1, x, y)
      {
        KeptAreAbove(z, k, y);
        if x == m && y != first {
          FirstLeftOut(z, k, first, y);
          AboveTransitive(z1, m, first, y);
        }
      }
      KeptSetIsTop(z1, kept, k);
      KeptSetIsTop(kept, kept, k);
    }
  }

  /** A member that overtakes is among the k greatest afterwards, but trimming has already lost it. */
  lemma OvertakerIsLost(z: ZSet, k: nat, m: string, s: int, y: string)
    requires m in Top(z, k) && Overtakes(z, k, m, s, y)
    ensures y in Top(z[m := s], k) && y !in Top(Top(z, k)[m := s], k)
  {
    KeptAreAbove(z, k, y);
    var z1 := z[m := s];
    AboveTotal(z1, m, y);
    assert Higher(z1, y) <= Higher(z, y) - {m};
    SubsetCard(Higher(z1, y), Higher(z, y) - {m});
  }

  /**
   * Trimming before and after an insertion agrees with trimming only after it, if and only if the
   * insertion does not lower a kept member's score so far that the first member left out, if there
   * is one, is then above it.
   */
  lemma TrimCommutesExactly(z: ZSet, k: nat, m: string, s: int)
    ensures Top(Top(z, k)[m := s], k) == Top(z[m := s], k)
       <==> !(m in Top(z, k) && exists y :: Overtakes(z, k, m, s, y))
  {
    if m in Top(z, k) && exists y :: Overtakes(z, k, m, s, y) {
      var y :| Overtakes(z, k, m, s, y);
      OvertakerIsLost(z, k, m, s, y);
    } else if m in z && s < z[m] {
      if m in Top(z, k) {
        LoweringKeptCommutes(z, k, m, s);
      } else {
        LoweringOutsiderCommutes(z, k, m, s);
      }
    } else {
      TrimCommutesWithInsert(z, k, m, s);
    }
  }

  /** Trimming twice is trimming once. */
  lemma TrimIsIdempotent(z: ZSet, k: nat)
    ensures Top(Top(z, k), k) == Top(z, k)
  {
    var t := Top(z, k);
    forall x | x in t
      ensures |Higher(t, x)| < k
    {
      assert Higher(t, x) <= Higher(z, x);
      SubsetCard(Higher(t, x), Higher(z, x));
    }
  }
}
