/** Bounded prefixes and subsequences. */
module Sequences {

  /** The first n elements, or all when there are fewer. */
  function Prefix<T>(s: seq<T>, n: nat): seq<T> {
    if n < |s| then s[..n] else s
  }

  lemma PrefixPrepends<T>(x: T, s: seq<T>, k: nat)
    requires k > 0
    ensures Prefix([x] + s, k) == [x] + Prefix(s, k - 1)
  {
  }

  lemma PrefixOfPrefix<T>(front: seq<T>, s: seq<T>, n: nat)
    ensures Prefix(front + Prefix(s, n), n) == Prefix(front + s, n)
  {
  }

  lemma ShorterPrefix<T>(s: seq<T>, k: nat, n: nat)
    requires k <= n
    ensures Prefix(s, k) == Prefix(Prefix(s, n), k)
  {
  }

  /** `part` lists the elements of `whole` at the places `at`, in order. */
  ghost predicate Selects<T>(part: seq<T>, whole: seq<T>, at: seq<nat>) {
    && |at| == |part|
    && (forall a, b :: 0 <= a < b < |at| ==> at[a] < at[b])
    && (forall a :: 0 <= a < |at| ==> at[a] < |whole| && part[a] == whole[at[a]])
  }

  lemma SelectsStep<T>(part: seq<T>, whole: seq<T>, x: T, keep: bool, at: seq<nat>) returns (next: seq<nat>)
    requires Selects(part, whole, at)
    ensures Selects(if keep then part + [x] else part, whole + [x], next)
    ensures forall i :: i in next <==> i in at || (keep && i == |whole|)
  {
    next := if keep then at + [|whole|] else at;
    assert forall i: nat :: i in at + [|whole|] <==> i in at || i == |whole|;
  }

  /** The places one further on. */
  function Shifted(at: seq<nat>): (moved: seq<nat>)
    ensures |moved| == |at|
  {
    if at == [] then [] else Shifted(at[..|at| - 1]) + [at[|at| - 1] + 1]
  }

  lemma {:induction false} ShiftedMoves(at: seq<nat>)
    ensures forall a :: 0 <= a < |at| ==> Shifted(at)[a] == at[a] + 1
    ensures forall i: nat :: i in Shifted(at) <==> i > 0 && i - 1 in at
    decreases |at|
  {
    if at == [] {
    } else {
      var front, last := at[..|at| - 1], at[|at| - 1];
      ShiftedMoves(front);
      assert forall i: nat :: i in at <==> i in front || i == last;
    }
  }

  lemma SelectsInFront<T>(x: T, part: seq<T>, whole: seq<T>, keep: bool, at: seq<nat>) returns (next: seq<nat>)
    requires Selects(part, whole, at)
    ensures Selects(if keep then [x] + part else part, [x] + whole, next)
    ensures forall i: nat :: i in next <==> (i > 0 && i - 1 in at) || (keep && i == 0)
  {
    ShiftedMoves(at);
    if keep {
      next := [0] + Shifted(at);
      assert forall i: nat :: i in next <==> i == 0 || i in Shifted(at);
    } else {
      next := Shifted(at);
    }
  }

  /** The elements of `part` stand in `whole` in the same order. */
  predicate Subsequence<T(==)>(part: seq<T>, whole: seq<T>) {
    if part == [] then true
    else if whole == [] then false
    else if part[|part| - 1] == whole[|whole| - 1] then Subsequence(part[..|part| - 1], whole[..|whole| - 1])
    else Subsequence(part, whole[..|whole| - 1])
  }

  lemma {:induction false} SubsequenceShorter<T>(part: seq<T>, whole: seq<T>)
    requires part != [] && Subsequence(part, whole)
    ensures Subsequence(part[..|part| - 1], whole)
    decreases |whole|, 0
  {
    var p, w := part[..|part| - 1], whole[..|whole| - 1];
    if part[|part| - 1] == whole[|whole| - 1] {
    } else {
      SubsequenceShorter(part, w);
    }
    SubsequenceLonger(p, w, whole[|whole| - 1]);
    assert w + [whole[|whole| - 1]] == whole;
  }

  lemma {:induction false} SubsequenceLonger<T>(part: seq<T>, whole: seq<T>, x: T)
    requires Subsequence(part, whole)
    ensures Subsequence(part, whole + [x])
    decreases |whole|, 1
  {
    assert (whole + [x])[..|whole|] == whole;
    if part != [] && part[|part| - 1] == x {
      SubsequenceShorter(part, whole);
    }
  }

  lemma SubsequenceBoth<T>(part: seq<T>, whole: seq<T>, x: T)
    requires Subsequence(part, whole)
    ensures Subsequence(part + [x], whole + [x])
  {
    assert (part + [x])[..|part|] == part && (whole + [x])[..|whole|] == whole;
  }
}
