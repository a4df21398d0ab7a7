/** White space and the one regular expression the receipt check uses. */
module Text {
  import opened Wrappers

  /** What String.prototype.trim removes and `\s` matches. */
  predicate IsSpace(ch: char) {
    || ch in " \t\n\r\U{000B}\U{000C}\U{00A0}\U{FEFF}\U{1680}\U{2028}\U{2029}\U{202F}\U{205F}\U{3000}"
    || '\U{2000}' <= ch <= '\U{200A}'
  }

  /** The same characters by code point: WhiteSpace and LineTerminator (sections 12.2 and 12.3 of ECMA-262). */
  lemma SpacesByCodePoint(ch: char)
    ensures IsSpace(ch) <==>
      var n := ch as int;
      9 <= n <= 13 || n in {32, 160, 5760, 8232, 8233, 8239, 8287, 12288, 65279} || 8192 <= n <= 8202
  {
  }

  /** A non-empty run of characters that are not white space. */
  predicate IsToken(s: string) {
    s != [] && forall i :: 0 <= i < |s| ==> !IsSpace(s[i])
  }

  const MARKER: string := "generated_at:"

  function SkipSpace(s: string): string {
    if s != [] && IsSpace(s[0]) then SkipSpace(s[1..]) else s
  }

  function TakeToken(s: string): string {
    if s == [] || IsSpace(s[0]) then [] else [s[0]] + TakeToken(s[1..])
  }

  /** The captured group of the first match of /generated_at:\s*(\S+)/, if there is a match. */
  function FirstGeneratedAt(s: string): Option<string> {
    if s == [] then None
    else if MARKER <= s && SkipSpace(s[|MARKER|..]) != [] then Some(TakeToken(SkipSpace(s[|MARKER|..])))
    else FirstGeneratedAt(s[1..])
  }

  /** The marker does not start at any place of the text. */
  ghost predicate MarkerFree(s: string) {
    forall i :: 0 <= i <= |s| ==> !(MARKER <= s[i..])
  }

  lemma {:induction false} TokenIsTaken(token: string, after: string)
    requires IsToken(token) && (after == [] || IsSpace(after[0]))
    ensures TakeToken(token + after) == token
    decreases |token|
  {
    var s := token + after;
    assert s[0] == token[0] && s[1..] == token[1..] + after;
    if |token| > 1 {
      TokenIsTaken(token[1..], after);
    } else {
      assert token == [token[0]] && s[1..] == after;
    }
  }

  lemma {:induction false} TakenIsToken(s: string)
    requires s != [] && !IsSpace(s[0])
    ensures IsToken(TakeToken(s))
    decreases |s|
  {
    if |s| == 1 || IsSpace(s[1]) {
    } else {
      TakenIsToken(s[1..]);
    }
  }

  lemma {:induction false} SkippedStartsToken(s: string)
    ensures SkipSpace(s) == [] || !IsSpace(SkipSpace(s)[0])
    decreases |s|
  {
    if s == [] || !IsSpace(s[0]) {
    } else {
      SkippedStartsToken(s[1..]);
    }
  }

  /** Whatever the expression captures is a token. */
  lemma {:induction false} CaptureIsToken(s: string)
    requires FirstGeneratedAt(s).Some?
    ensures IsToken(FirstGeneratedAt(s).value)
    decreases |s|
  {
    if MARKER <= s && SkipSpace(s[|MARKER|..]) != [] {
      SkippedStartsToken(s[|MARKER|..]);
      TakenIsToken(SkipSpace(s[|MARKER|..]));
    } else {
      CaptureIsToken(s[1..]);
    }
  }

  predicate AllSpace(s: string) {
    forall i :: 0 <= i < |s| ==> IsSpace(s[i])
  }

  lemma {:induction false} SkipsAllExactly(s: string)
    ensures SkipSpace(s) == [] <==> AllSpace(s)
    decreases |s|
  {
    if s == [] || !IsSpace(s[0]) {
    } else {
      SkipsAllExactly(s[1..]);
      assert s == [s[0]] + s[1..];
    }
  }

  /** The marker stands at place i, and not only white space follows it. */
  predicate MatchesAt(s: string, i: nat) {
    i <= |s| && MARKER <= s[i..] && !AllSpace(s[i + |MARKER|..])
  }

  lemma MatchAtStart(s: string)
    ensures MatchesAt(s, 0) <==> MARKER <= s && SkipSpace(s[|MARKER|..]) != []
  {
    assert s[0..] == s;
    if MARKER <= s {
      SkipsAllExactly(s[|MARKER|..]);
    }
  }

  lemma MatchInTail(s: string, i: nat)
    requires s != []
    ensures MatchesAt(s[1..], i) <==> MatchesAt(s, i + 1)
  {
    if i < |s| {
      assert s[1..][i..] == s[i + 1..];
      if MARKER <= s[i + 1..] {
        assert s[1..][i + |MARKER|..] == s[i + 1 + |MARKER|..];
      }
    }
  }

  /** There is a match exactly when some marker is followed by anything but white space. */
  lemma {:induction false} CapturesExactly(s: string)
    ensures FirstGeneratedAt(s).Some? <==> exists i: nat :: MatchesAt(s, i)
    decreases |s|
  {
    MatchAtStart(s);
    if s == [] {
      assert forall i: nat :: !MatchesAt(s, i);
    } else {
      CapturesExactly(s[1..]);
      forall i: nat
        ensures MatchesAt(s[1..], i) <==> MatchesAt(s, i + 1)
      {
        MatchInTail(s, i);
      }
      if i: nat :| MatchesAt(s[1..], i) {
        assert MatchesAt(s, i + 1);
      }
      if i: nat :| MatchesAt(s, i) {
        assert i > 0 ==> MatchesAt(s[1..], i - 1);
      }
    }
  }

  lemma SkipsOneSpace(token: string, after: string)
    requires IsToken(token)
    ensures SkipSpace(" " + (token + after)) == token + after
  {
    var s := " " + (token + after);
    assert s[1..] == token + after && (token + after)[0] == token[0];
  }

  lemma MarkerInFront(marker: string, token: string, after: string)
    ensures
      var s, behind := marker + " " + token + after, " " + (token + after);
      marker <= s && s[|marker|..] == behind
  {
  }

  lemma MatchHere(s: string)
    requires s != [] && MARKER <= s && SkipSpace(s[|MARKER|..]) != []
    ensures FirstGeneratedAt(s) == Some(TakeToken(SkipSpace(s[|MARKER|..])))
  {
  }

  lemma CaptureAtMarker(token: string, after: string)
    requires IsToken(token) && (after == [] || IsSpace(after[0]))
    ensures FirstGeneratedAt(MARKER + " " + token + after) == Some(token)
  {
    MarkerInFront(MARKER, token, after);
    SkipsOneSpace(token, after);
    TokenIsTaken(token, after);
    MatchHere(MARKER + " " + token + after);
  }

  lemma NoMarkerAtStart(head: string, behind: string)
    requires head != [] && IsSpace(head[|head| - 1]) && !(MARKER <= head)
    ensures !(MARKER <= head + behind)
  {
    var s := head + behind;
    assert |head| >= |MARKER| ==> s[..|MARKER|] == head[..|MARKER|];
    assert s[|head| - 1] == head[|head| - 1];
    if |head| < |MARKER| {
      MarkerHasNoSpace(|head| - 1);
    }
  }

  /** The expression finds the token after the first marker, whatever follows. */
  lemma {:induction false} CaptureFindsToken(head: string, token: string, after: string)
    requires head == [] || IsSpace(head[|head| - 1])
    requires MarkerFree(head)
    requires IsToken(token) && (after == [] || IsSpace(after[0]))
    ensures FirstGeneratedAt(head + (MARKER + " " + token + after)) == Some(token)
    decreases |head|
  {
    var behind := MARKER + " " + token + after;
    CaptureAtMarker(token, after);
    if head == [] {
      assert head + behind == behind;
    } else {
      assert head[0..] == head;
      NoMarkerAtStart(head, behind);
      assert (head + behind)[1..] == head[1..] + behind;
      forall i | 0 <= i <= |head[1..]|
        ensures !(MARKER <= head[1..][i..])
      {
        assert head[1..][i..] == head[i + 1..];
      }
      CaptureFindsToken(head[1..], token, after);
    }
  }

  lemma MarkerHasNoSpace(i: nat)
    requires i < |MARKER|
    ensures !IsSpace(MARKER[i])
  {
  }
}
