/**
 * SHA-256 (section 6.2 of FIPS 180-4) as an arbitrary function on strings, and the text
 * encodings that feed it. Nothing here supposes that the function is injective: a binding
 * theorem concludes "equal, or these hashed texts contain a collision".
 */
module Hashing {

  type Hash = string -> string

  predicate IsHexDigit(c: char) {
    '0' <= c <= '9' || 'a' <= c <= 'f'
  }

  predicate IsHexDigest(d: string) {
    |d| == 64 && forall i :: 0 <= i < 64 ==> IsHexDigit(d[i])
  }

  /** '0'.repeat(64), the hash before a first block. */
  function ZeroHash(): (z: string)
    ensures |z| == 64 && forall i :: 0 <= i < 64 ==> z[i] == '0'
  {
    seq(64, _ => '0')
  }

  /** The digest is rendered as 64 lower-case hexadecimal digits. */
  ghost predicate RendersHex(sha: Hash) {
    forall s :: IsHexDigest(sha(s))
  }

  /** Two different texts, one from each set, share a digest. */
  ghost predicate CollisionBetween(sha: Hash, left: set<string>, right: set<string>) {
    exists a, b :: a in left && b in right && a != b && sha(a) == sha(b)
  }

  /** A collision stays a collision when more texts are considered. */
  lemma CollisionGrows(sha: Hash, l: set<string>, r: set<string>, left: set<string>, right: set<string>)
    requires CollisionBetween(sha, l, r)
    requires l <= left && r <= right
    ensures CollisionBetween(sha, left, right)
  {
    var a, b :| a in l && b in r && a != b && sha(a) == sha(b);
    assert a in left && b in right;
  }

  function Digits(n: nat): (s: string)
    ensures |s| > 0 && forall i :: 0 <= i < |s| ==> '0' <= s[i] <= '9'
  {
    if n < 10 then [('0' as int + n) as char]
    else Digits(n / 10) + [('0' as int + n % 10) as char]
  }

  /** The number a row of decimal digits stands for. */
  function Decimal(s: string): int {
    if s == [] then 0 else 10 * Decimal(s[..|s| - 1]) + (s[|s| - 1] as int - '0' as int)
  }

  /** The digits are the number's, most significant first and without a leading zero. */
  lemma {:induction false} DigitsReadBack(n: nat)
    ensures Decimal(Digits(n)) == n
    ensures n > 0 ==> Digits(n)[0] != '0'
    decreases n
  {
    if n < 10 {
      assert Digits(n)[..0] == [];
    } else {
      DigitsReadBack(n / 10);
      assert Digits(n)[..|Digits(n)| - 1] == Digits(n / 10);
    }
  }

  /** How a template or `join` prints an integer. */
  function NumberText(n: int): string {
    if n < 0 then "-" + Digits(-n) else Digits(n)
  }

  lemma {:induction false} DigitsInjective(a: nat, b: nat)
    requires Digits(a) == Digits(b)
    ensures a == b
    decreases a
  {
    var s, t := Digits(a), Digits(b);
    assert s[|s| - 1] == t[|t| - 1];
    if a < 10 || b < 10 {
    } else {
      assert s[..|s| - 1] == Digits(a / 10);
      assert t[..|t| - 1] == Digits(b / 10);
      DigitsInjective(a / 10, b / 10);
    }
  }

  /** Different integers print differently, and no printed integer holds a separator. */
  lemma NumberTextFaithful(a: int, b: int)
    ensures NumberText(a) == NumberText(b) ==> a == b
    ensures '|' !in NumberText(a)
  {
    assert a < 0 <==> NumberText(a)[0] == '-';
    assert b < 0 <==> NumberText(b)[0] == '-';
    if NumberText(a) == NumberText(b) {
      if a < 0 {
        assert NumberText(a)[1..] == Digits(-a) && NumberText(b)[1..] == Digits(-b);
        DigitsInjective(-a, -b);
      } else {
        DigitsInjective(a, b);
      }
    }
  }

  /** `parts.join('|')` */
  function JoinPipes(parts: seq<string>): string
    requires |parts| > 0
  {
    if |parts| == 1 then parts[0] else parts[0] + "|" + JoinPipes(parts[1..])
  }

  lemma JoinPipesPrepends(x: string, rest: seq<string>)
    requires |rest| > 0
    ensures JoinPipes([x] + rest) == x + "|" + JoinPipes(rest)
  {
    assert ([x] + rest)[1..] == rest;
  }

  lemma FirstPipeSplits(a: string, x: string, b: string, y: string)
    requires '|' !in a && '|' !in b
    requires a + "|" + x == b + "|" + y
    ensures a == b && x == y
  {
    var s := a + "|" + x;
    assert s[|a|] == '|' && s[|b|] == '|';
    assert forall i :: 0 <= i < |a| ==> s[i] == a[i];
    assert forall i :: 0 <= i < |b| ==> s[i] == b[i];
    assert |a| == |b|;
    assert a == s[..|a|] == b;
    assert x == s[|a| + 1..] == y;
  }

  /** A join of equally many parts is read back uniquely when only the last part may hold a separator. */
  lemma {:induction false} JoinPipesFaithful(ps: seq<string>, qs: seq<string>)
    requires |ps| == |qs| > 0
    requires forall i :: 0 <= i < |ps| - 1 ==> '|' !in ps[i] && '|' !in qs[i]
    requires JoinPipes(ps) == JoinPipes(qs)
    ensures ps == qs
  {
    if |ps| > 1 {
      FirstPipeSplits(ps[0], JoinPipes(ps[1..]), qs[0], JoinPipes(qs[1..]));
      JoinPipesFaithful(ps[1..], qs[1..]);
      assert ps == [ps[0]] + ps[1..] && qs == [qs[0]] + qs[1..];
    } else {
      assert ps == [ps[0]] && qs == [qs[0]];
    }
  }
}
