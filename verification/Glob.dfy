/** Matching strings with globbing patterns. */
module Glob {
  import opened Wrappers

  /** The bytes of a C string as signed chars, without the NUL. */
  type CString = seq<int>

  const STAR: int := '*' as int
  const QUERY: int := '?' as int
  const OPEN: int := '[' as int
  const CLOSE: int := ']' as int
  const ESCAPE: int := '\\' as int
  const HYPHEN: int := '-' as int
  const NEGATE: int := '^' as int

  // ------------------------------------------------------------------------------ sets

  /** The first closing bracket from i on. */
  function FirstClose(p: CString, i: nat): (j: Option<nat>)
    ensures j.Some? ==> i <= j.value < |p| && p[j.value] == CLOSE
    decreases |p| - i
  {
    if i >= |p| then None else if p[i] == CLOSE then Some(i) else FirstClose(p, i + 1)
  }

  /** The closing bracket of a set: the first one behind its first character, which may itself be one. */
  function Closing(p: CString, i: nat): (j: Option<nat>)
    ensures j.Some? ==> i < j.value < |p| && p[j.value] == CLOSE
  {
    FirstClose(p, i + 1)
  }

  predicate Between(a: int, ch: int, b: int) {
    ch == a || ch == b || (a < ch && ch < b)
  }

  /** Whether a set holds a character, from place k of its body on: ranges and characters as the matcher reads them. */
  predicate Holds(body: CString, k: nat, ch: int)
    decreases |body| - k
  {
    if k >= |body| then false
    else if k + 1 < |body| && body[k + 1] == HYPHEN then
      if k + 2 < |body| then Between(body[k], ch, body[k + 2]) || Holds(body, k + 2, ch) else ch >= body[k]
    else ch == body[k] || Holds(body, k + 1, ch)
  }

  /** The documented meaning: the characters and the ranges a set lists. */
  predicate Lists(body: CString, k: nat, ch: int)
    decreases |body| - k
  {
    if k >= |body| then false
    else if k + 2 < |body| && body[k + 1] == HYPHEN then Between(body[k], ch, body[k + 2]) || Lists(body, k + 3, ch)
    else ch == body[k] || Lists(body, k + 1, ch)
  }

  /** No hyphen right behind a range, and none at the end behind another character. */
  predicate Plain(body: CString, k: nat)
    decreases |body| - k
  {
    if k >= |body| then true
    else if k + 1 < |body| && body[k + 1] == HYPHEN then
      k + 2 < |body| && (k + 3 < |body| ==> body[k + 3] != HYPHEN) && Plain(body, k + 3)
    else Plain(body, k + 1)
  }

  /** In plain sets the matcher finds what the set lists. */
  lemma {:induction false} HoldsLists(body: CString, k: nat, ch: int)
    requires Plain(body, k)
    ensures Holds(body, k, ch) <==> Lists(body, k, ch)
    decreases |body| - k
  {
    if k < |body| {
      if k + 1 < |body| && body[k + 1] == HYPHEN {
        HoldsLists(body, k + 3, ch);
        if k + 3 >= |body| {
          assert Holds(body, k + 2, ch) == (ch == body[k + 2]);
        } else {
          assert Holds(body, k + 2, ch) == (ch == body[k + 2] || Holds(body, k + 3, ch));
        }
      } else {
        HoldsLists(body, k + 1, ch);
      }
    }
  }

  /** The matcher finds in a set what it lists. */
  ghost predicate ReadsAsListed(body: CString) {
    forall ch :: Agrees(body, ch)
  }

  /** For this character it does. */
  predicate Agrees(body: CString, ch: int) {
    Holds(body, 0, ch) <==> Lists(body, 0, ch)
  }

  /** No character of the set lies between the two, nor is one of them. */
  predicate SameGap(body: CString, ch: int, d: int) {
    forall i | 0 <= i < |body| :: body[i] != ch && body[i] != d && (body[i] < ch <==> body[i] < d)
  }

  lemma {:induction false} SameGapSame(body: CString, k: nat, ch: int, d: int)
    requires SameGap(body, ch, d)
    ensures Holds(body, k, ch) <==> Holds(body, k, d)
    ensures Lists(body, k, ch) <==> Lists(body, k, d)
    decreases |body| - k
  {
    if k < |body| {
      SameGapSame(body, k + 1, ch, d);
      if k + 1 < |body| {
        SameGapSame(body, k + 2, ch, d);
        SameGapSame(body, k + 3, ch, d);
      }
    }
  }

  lemma {:induction false} NothingBelow(body: CString, k: nat, ch: int)
    requires forall i | 0 <= i < |body| :: ch < body[i]
    ensures !Holds(body, k, ch) && !Lists(body, k, ch)
    decreases |body| - k
  {
    if k < |body| {
      NothingBelow(body, k + 1, ch);
      if k + 1 < |body| {
        NothingBelow(body, k + 2, ch);
        NothingBelow(body, k + 3, ch);
      }
    }
  }

  /** The last character of the set below another. */
  lemma {:induction false} LastBelow(body: CString, n: nat, ch: int) returns (i: int)
    requires n <= |body|
    ensures -1 <= i < n && (i >= 0 ==> body[i] < ch)
    ensures forall j | 0 <= j < n && body[j] < ch :: i >= 0 && body[j] <= body[i]
  {
    i := -1;
    if n > 0 {
      i := LastBelow(body, n - 1, ch);
      if body[n - 1] < ch && (i < 0 || body[i] < body[n - 1]) {
        i := n - 1;
      }
    }
  }

  /** A set reads as it lists exactly when it does for its own characters and the ones next above them. */
  lemma ReadsExactly(body: CString)
    ensures ReadsAsListed(body) <==> forall i | 0 <= i < |body| :: Agrees(body, body[i]) && Agrees(body, body[i] + 1)
  {
    hide Holds, Lists;
    if forall i | 0 <= i < |body| :: Agrees(body, body[i]) && Agrees(body, body[i] + 1) {
      forall ch ensures Agrees(body, ch) {
        AgreesBetween(body, ch);
      }
    }
  }

  lemma AgreesBetween(body: CString, ch: int)
    requires forall i | 0 <= i < |body| :: Agrees(body, body[i]) && Agrees(body, body[i] + 1)
    ensures Agrees(body, ch)
  {
    hide Holds, Lists;
    if forall i | 0 <= i < |body| :: body[i] != ch {
      var i := LastBelow(body, |body|, ch);
      if i < 0 {
        NothingBelow(body, 0, ch);
      } else if ch != body[i] + 1 {
        assert Agrees(body, body[i] + 1);
        if forall j | 0 <= j < |body| :: body[j] != body[i] + 1 {
          SameGapSame(body, 0, body[i] + 1, ch);
        }
      }
    }
  }

  lemma PlainReads(body: CString)
    requires Plain(body, 0)
    ensures ReadsAsListed(body)
  {
    forall ch ensures Agrees(body, ch) {
      HoldsLists(body, 0, ch);
    }
  }

  /**
   * A hyphen behind a range makes another range of that range's end.  Such a set reads as it lists
   * exactly when the hyphen is in one of the two ranges, and nothing else is new in the second.
   */
  lemma HyphenBehindRangeExactly(a: int, b: int, c: int)
    ensures ReadsAsListed([a, HYPHEN, b, HYPHEN, c]) <==> (Between(a, HYPHEN, b) || Between(b, HYPHEN, c)) && NothingNew(a, b, c)
  {
    var body := [a, HYPHEN, b, HYPHEN, c];
    hide Holds, Lists, Between;
    if ReadsAsListed(body) {
      TwoRanges(a, b, c, HYPHEN);
      assert Agrees(body, HYPHEN);
      forall ch | Inside(b, ch, c) ensures ch == a || ch == HYPHEN {
        TwoRanges(a, b, c, ch);
        assert Agrees(body, ch);
        InsideIsBetween(a, b, c, ch);
      }
    }
    if (Between(a, HYPHEN, b) || Between(b, HYPHEN, c)) && NothingNew(a, b, c) {
      forall ch ensures Agrees(body, ch) {
        TwoRanges(a, b, c, ch);
        BetweenIsInside(a, b, c, ch);
      }
    }
  }

  ghost predicate NothingNew(a: int, b: int, c: int) {
    forall ch | Inside(b, ch, c) :: ch == a || ch == HYPHEN
  }

  lemma InsideIsBetween(a: int, b: int, c: int, ch: int)
    requires Inside(b, ch, c)
    ensures Between(b, ch, c) && ch != c && (Between(a, ch, b) ==> ch == a)
  {}

  lemma BetweenIsInside(a: int, b: int, c: int, ch: int)
    ensures Between(b, ch, c) ==> ch == c || Inside(b, ch, c) || Between(a, ch, b)
    ensures Between(b, c, c) && Between(a, a, b) && Between(a, b, b)
  {}

  /** Strictly between. */
  predicate Inside(a: int, ch: int, b: int) {
    a < ch < b
  }

  lemma TwoRanges(a: int, b: int, c: int, ch: int)
    ensures Holds([a, HYPHEN, b, HYPHEN, c], 0, ch) <==> Between(a, ch, b) || Between(b, ch, c)
    ensures Lists([a, HYPHEN, b, HYPHEN, c], 0, ch) <==> Between(a, ch, b) || ch == HYPHEN || ch == c
  {
    var body := [a, HYPHEN, b, HYPHEN, c];
    assert Holds(body, 4, ch) <==> ch == c;
    assert Holds(body, 2, ch) <==> Between(b, ch, c);
    assert Lists(body, 4, ch) <==> ch == c;
    assert Lists(body, 3, ch) <==> ch == HYPHEN || ch == c;
  }

  /** In [a-c-e] the end of the first range begins another: d is in it, though the set lists no such range. */
  lemma HyphenBehindRange()
    ensures var body := ['a' as int, HYPHEN, 'c' as int, HYPHEN, 'e' as int];
            Holds(body, 0, 'd' as int) && !Lists(body, 0, 'd' as int)
  {
    var body := ['a' as int, HYPHEN, 'c' as int, HYPHEN, 'e' as int];
    assert Holds(body, 2, 'd' as int);
    assert !Lists(body, 5, 'd' as int) && !Lists(body, 4, 'd' as int) && !Lists(body, 3, 'd' as int);
  }

  // --------------------------------------------------------------------------- patterns

  /** Where the body of a set begins, behind its bracket. */
  function BodyAt(p: CString): nat {
    if |p| > 1 && p[1] == NEGATE then 2 else 1
  }

  /** The strings a pattern matches. */
  ghost predicate Matches(p: CString, s: CString)
    decreases |p|
  {
    if p == [] then s == []
    else if p[0] == STAR then exists k | 0 <= k <= |s| :: Matches(p[1..], s[k..])
    else if s == [] then false
    else if p[0] == QUERY then Matches(p[1..], s[1..])
    else if p[0] == OPEN then
      var i := BodyAt(p);
      match Closing(p, i)
      case None => false
      case Some(j) => Holds(p[i..j], 0, s[0]) == (i == 1) && Matches(p[j + 1..], s[1..])
    else if p[0] == ESCAPE && |p| > 1 then p[1] == s[0] && Matches(p[2..], s[1..])
    else p[0] == s[0] && Matches(p[1..], s[1..])
  }

  /** The strings a pattern matches as its documentation has it, with sets that hold what they list. */
  ghost predicate Documented(p: CString, s: CString)
    decreases |p|
  {
    if p == [] then s == []
    else if p[0] == STAR then exists k | 0 <= k <= |s| :: Documented(p[1..], s[k..])
    else if s == [] then false
    else if p[0] == QUERY then Documented(p[1..], s[1..])
    else if p[0] == OPEN then
      var i := BodyAt(p);
      match Closing(p, i)
      case None => false
      case Some(j) => Lists(p[i..j], 0, s[0]) == (i == 1) && Documented(p[j + 1..], s[1..])
    else if p[0] == ESCAPE && |p| > 1 then p[1] == s[0] && Documented(p[2..], s[1..])
    else p[0] == s[0] && Documented(p[1..], s[1..])
  }

  /** All sets of the pattern read as they list. */
  ghost predicate ListedSets(p: CString)
    decreases |p|
  {
    if p == [] then true
    else if p[0] == OPEN then
      var i := BodyAt(p);
      match Closing(p, i) case None => true case Some(j) => ReadsAsListed(p[i..j]) && ListedSets(p[j + 1..])
    else if p[0] == ESCAPE && |p| > 1 then ListedSets(p[2..])
    else ListedSets(p[1..])
  }

  /** With such sets a pattern matches what its documentation says. */
  lemma {:induction false} MatchesDocumented(p: CString, s: CString)
    requires ListedSets(p)
    ensures Matches(p, s) <==> Documented(p, s)
    decreases |p|
  {
    hide Holds, Lists;
    if p == [] || (s == [] && p[0] != STAR) {
    } else if p[0] == STAR {
      forall k | 0 <= k <= |s| ensures Matches(p[1..], s[k..]) <==> Documented(p[1..], s[k..]) {
        MatchesDocumented(p[1..], s[k..]);
      }
    } else if p[0] == OPEN {
      var i := BodyAt(p);
      if Closing(p, i).Some? {
        var j := Closing(p, i).value;
        assert Agrees(p[i..j], s[0]);
        MatchesDocumented(p[j + 1..], s[1..]);
      }
    } else if p[0] == ESCAPE && |p| > 1 {
      MatchesDocumented(p[2..], s[1..]);
    } else {
      MatchesDocumented(p[1..], s[1..]);
    }
  }

  /** The pattern of one set. */
  function OneSet(body: CString): CString {
    [OPEN] + body + [CLOSE]
  }

  lemma OneSetMatches(body: CString, s: CString)
    requires body != [] && body[0] != NEGATE && forall i | 0 < i < |body| :: body[i] != CLOSE
    ensures Matches(OneSet(body), s) <==> |s| == 1 && Holds(body, 0, s[0])
    ensures Documented(OneSet(body), s) <==> |s| == 1 && Lists(body, 0, s[0])
  {
    hide Holds, Lists;
    var p := OneSet(body);
    CloseBehind(p, 2, |body| + 1);
    assert p[1..|body| + 1] == body && p[|body| + 2..] == [];
  }

  lemma {:induction false} CloseBehind(p: CString, i: nat, j: nat)
    requires i <= j < |p| && p[j] == CLOSE && forall k | i <= k < j :: p[k] != CLOSE
    ensures FirstClose(p, i) == Some(j)
    decreases j - i
  {
    if i < j {
      CloseBehind(p, i + 1, j);
    }
  }

  /** The pattern matches what its documentation says. */
  ghost predicate MatchesAsDocumented(p: CString) {
    forall s: CString :: Matches(p, s) <==> Documented(p, s)
  }

  /** A pattern of one set does so exactly when that set reads as it lists. */
  lemma OneSetExactly(body: CString)
    requires body != [] && body[0] != NEGATE && forall i | 0 < i < |body| :: body[i] != CLOSE
    ensures MatchesAsDocumented(OneSet(body)) <==> ReadsAsListed(body)
  {
    hide Holds, Lists, Matches, Documented, OneSet;
    if ReadsAsListed(body) {
      forall s: CString ensures Matches(OneSet(body), s) <==> Documented(OneSet(body), s) {
        OneSetMatches(body, s);
        if |s| == 1 {
          assert Agrees(body, s[0]);
        }
      }
    }
    if MatchesAsDocumented(OneSet(body)) {
      forall ch ensures Agrees(body, ch) {
        OneSetMatches(body, [ch]);
        assert Matches(OneSet(body), [ch]) <==> Documented(OneSet(body), [ch]);
      }
    }
  }

  /** The pattern has no negated set that ends with it right behind the negation; the matcher would read on behind its NUL. */
  predicate Ended(p: CString)
    decreases |p|
  {
    if p == [] then true
    else if p[0] == OPEN then
      var i := BodyAt(p);
      !(i == 2 && |p| == 2) && match Closing(p, i) case None => true case Some(j) => Ended(p[j + 1..])
    else if p[0] == ESCAPE && |p| > 1 then Ended(p[2..])
    else Ended(p[1..])
  }

  lemma StarStar(p: CString, s: CString)
    requires |p| > 1 && p[0] == STAR && p[1] == STAR
    ensures Matches(p, s) <==> Matches(p[1..], s)
  {
    if Matches(p, s) {
      var k :| 0 <= k <= |s| && Matches(p[1..], s[k..]);
      var l :| 0 <= l <= |s[k..]| && Matches(p[1..][1..], s[k..][l..]);
      assert s[k..][l..] == s[k + l..];
    }
    if Matches(p[1..], s) {
      assert s[0..] == s;
    }
  }

  // --------------------------------------------------------------------------- matching

  /**
   * The part of ms_globmatch that reads a set; `p` begins behind the bracket and the negation.
   * None when the set does not end, otherwise whether it holds the character and what follows it.
   */
  method ReadSet(p: CString, ch: int) returns (r: Option<(bool, CString)>)
    requires p != []
    ensures r == match Closing(p, 0) case None => None case Some(j) => Some((Holds(p[..j], 0, ch), p[j + 1..]))
  {
    var matched, at := false, 0;
    ghost var close := Closing(p, 0);
    ghost var body := if close.Some? then p[..close.value] else p;
    var reading := true;
    while reading && !matched && at < |p|
      invariant 0 <= at <= |p| && if reading && !matched then at < |p| && FirstClose(p, at + 1) == close else FirstClose(p, at) == close
      invariant close.Some? ==> (Holds(body, 0, ch) <==> matched || (reading && Holds(body, at, ch)))
      decreases reading, !matched, |p| - at
    {
      var c := p[at];
      if at + 1 >= |p| {
        return None;
      }
      if p[at + 1] == HYPHEN {
        if at + 2 >= |p| {
          return None;
        }
        if p[at + 2] != CLOSE {
          matched := Between(c, ch, p[at + 2]);
          at := at + 2;
        } else {
          matched := ch >= c;
          reading, at := false, at + 2;
        }
      } else {
        matched := ch == c;
        if p[at + 1] != CLOSE {
          if p[at + 1] == ch {
            matched := true;
          }
        } else {
          reading := false;
        }
        at := at + 1;
      }
    }
    while at < |p| && p[at] != CLOSE
      invariant 0 <= at <= |p| && FirstClose(p, at) == close
    {
      at := at + 1;
    }
    if at >= |p| {
      return None;
    }
    return Some((matched, p[at + 1..]));
  }

  /** A set within a pattern, by its parts. */
  lemma SetParts(p: CString, i: nat)
    requires i < |p|
    ensures Closing(p, i) == match Closing(p[i..], 0) case None => None case Some(j) => Some(i + j)
  {
    CloseShift(p, i, 1);
  }

  lemma {:induction false} CloseShift(p: CString, i: nat, k: nat)
    requires i <= |p|
    ensures FirstClose(p, i + k) == match FirstClose(p[i..], k) case None => None case Some(j) => Some(i + j)
    decreases |p| - i - k
  {
    if i + k < |p| && p[i + k] != CLOSE {
      CloseShift(p, i, k + 1);
    }
  }

  /** What a set requires of a string that is not empty. */
  lemma SetMatches(p: CString, s: CString)
    requires |p| > 1 && p[0] == OPEN && s != [] && BodyAt(p) < |p|
    ensures var i := BodyAt(p);
            var close := Closing(p[i..], 0);
            && (close.None? ==> !Matches(p, s))
            && (close.Some? ==> (Matches(p, s) <==> Holds(p[i..][..close.value], 0, s[0]) == (i == 1) && Matches(p[i..][close.value + 1..], s[1..])))
            && (close.Some? && Ended(p) ==> Ended(p[i..][close.value + 1..]))
  {
    var i := BodyAt(p);
    SetParts(p, i);
    var close := Closing(p[i..], 0);
    if close.Some? {
      assert p[i..][..close.value] == p[i..i + close.value] && p[i..][close.value + 1..] == p[i + close.value + 1..];
    }
  }

  /** Characters that cannot begin a match are stepped over. */
  lemma Skips(p: CString, s: CString)
    requires p != [] && s != [] && p[0] != STAR && p[0] != QUERY && p[0] != OPEN && p[0] != ESCAPE && p[0] != s[0]
    ensures !Matches(p, s)
  {}

  /** ms_globmatch; pointers are the strings that are left. */
  method GlobMatch(text0: CString, pattern0: CString) returns (matched: bool)
    requires Ended(pattern0)
    decreases |pattern0|, 1
    ensures matched <==> Matches(pattern0, text0)
  {
    hide Holds;
    var text, pattern := text0, pattern0;
    while |pattern| > 0
      invariant |pattern| <= |pattern0| && Ended(pattern) && (Matches(pattern, text) <==> Matches(pattern0, text0))
      decreases |pattern|
    {
      if text == [] && pattern[0] != STAR {
        return false;
      }
      if pattern[0] == STAR {
        matched := MatchStar(text, pattern);
        return;
      } else if pattern[0] == QUERY {
        pattern := pattern[1..];
      } else if pattern[0] == OPEN {
        var negated := BodyAt(pattern) == 2;
        var body := pattern[BodyAt(pattern)..];
        if body == [] {
          // the bracket ends the pattern
          return false;
        }
        SetMatches(pattern, text);
        var r := ReadSet(body, text[0]);
        if r.None? || r.value.0 == negated {
          return false;
        }
        pattern := r.value.1;
      } else {
        var c := pattern[0];
        ghost var was := pattern;
        pattern := pattern[1..];
        if c == ESCAPE && pattern != [] {
          c, pattern := pattern[0], pattern[1..];
          assert pattern == was[2..];
        }
        if c != text[0] {
          return false;
        }
      }
      text := text[1..];
    }
    return text == [];
  }

  /** The branch for stars. */
  method MatchStar(text: CString, pattern0: CString) returns (matched: bool)
    requires pattern0 != [] && pattern0[0] == STAR && Ended(pattern0)
    decreases |pattern0|, 0
    ensures matched <==> Matches(pattern0, text)
  {
    hide Holds;
    var pattern := pattern0;
    while |pattern| > 1 && pattern[1] == STAR
      invariant 0 < |pattern| <= |pattern0| && pattern[0] == STAR && Ended(pattern)
      invariant Matches(pattern, text) <==> Matches(pattern0, text)
      decreases |pattern|
    {
      StarStar(pattern, text);
      pattern := pattern[1..];
    }
    pattern := pattern[1..];
    if pattern == [] {
      assert Matches(pattern, text[|text|..]);
      return true;
    }
    matched := MatchSuffix(text, pattern);
  }

  /** Try the pattern, which begins with no star, at every place of the text. */
  method MatchSuffix(text0: CString, pattern: CString) returns (matched: bool)
    requires pattern != [] && pattern[0] != STAR && Ended(pattern)
    decreases |pattern|, 2
    ensures matched <==> exists k | 0 <= k <= |text0| :: Matches(pattern, text0[k..])
  {
    var text := text0;
    ghost var i := 0;
    if pattern[0] != QUERY && pattern[0] != OPEN && pattern[0] != ESCAPE {
      while text != [] && pattern[0] != text[0]
        invariant 0 <= i <= |text0| && text == text0[i..] && forall k | 0 <= k < i :: !Matches(pattern, text0[k..])
        decreases |text|
      {
        Skips(pattern, text);
        text := text[1..];
        i := i + 1;
      }
    }
    hide Matches;
    while text != []
      invariant 0 <= i <= |text0| && text == text0[i..] && forall k | 0 <= k < i :: !Matches(pattern, text0[k..])
      decreases |text|
    {
      var found := GlobMatch(text, pattern);
      if found {
        assert Matches(pattern, text0[i..]);
        return true;
      }
      text := text[1..];
      i := i + 1;
    }
    NotEmpty(pattern);
    return false;
  }

  lemma NotEmpty(p: CString)
    requires p != [] && p[0] != STAR
    ensures !Matches(p, [])
  {}

  // ------------------------------------------------------------------ what patterns mean

  /** A range in order holds what is between its ends, another only its ends. */
  lemma RangeHolds(a: int, b: int, ch: int)
    ensures Lists([a, '-' as int, b], 0, ch) <==> if a <= b then a <= ch <= b else ch == a || ch == b
    ensures Holds([a, '-' as int, b], 0, ch) <==> if a <= b then a <= ch <= b else ch == a || ch == b
  {
    var body := [a, '-' as int, b];
    assert Holds(body, 2, ch) <==> ch == b;
    assert !Lists(body, 3, ch);
  }

  /** What the special characters of patterns match; an escaped one and any other match themselves. */
  lemma SpecialCharacters(s: CString, c: int, x: int, y: int)
    requires x != '^' as int && x != '-' as int && y != '-' as int && y != ']' as int
    ensures Documented(['*' as int], s)
    ensures Documented(['?' as int], s) <==> |s| == 1
    ensures Documented(['\\' as int, c], s) <==> s == [c]
    ensures c != '*' as int && c != '?' as int && c != '[' as int ==> (Documented([c], s) <==> s == [c])
    ensures Documented(['[' as int, x, y, ']' as int], s) <==> |s| == 1 && (s[0] == x || s[0] == y)
    ensures Documented(['[' as int, '^' as int, x, y, ']' as int], s) <==> |s| == 1 && s[0] != x && s[0] != y
  {
    StarMatches(s);
    TwoListed(s, x, y);
  }

  lemma StarMatches(s: CString)
    ensures Documented([STAR], s)
  {
    assert [STAR][1..] == [] && s[|s|..] == [];
    assert Documented([STAR][1..], s[|s|..]);
  }

  lemma TwoListed(s: CString, x: int, y: int)
    requires x != NEGATE && x != HYPHEN && y != HYPHEN && y != CLOSE
    ensures Documented([OPEN, x, y, CLOSE], s) <==> |s| == 1 && (s[0] == x || s[0] == y)
    ensures Documented([OPEN, NEGATE, x, y, CLOSE], s) <==> |s| == 1 && s[0] != x && s[0] != y
  {
    var p, q := [OPEN, x, y, CLOSE], [OPEN, NEGATE, x, y, CLOSE];
    CloseBehind(p, 2, 3);
    CloseBehind(q, 3, 4);
    assert p[1..3] == [x, y] && q[2..4] == [x, y] && p[4..] == [] && q[5..] == [];
    if s != [] {
      ListsTwo(x, y, s[0]);
    }
    hide Lists, Closing;
    assert Closing(p, 1) == Some(3) && Closing(q, 2) == Some(4);
  }

  lemma ListsTwo(x: int, y: int, ch: int)
    requires x != HYPHEN && y != HYPHEN
    ensures Lists([x, y], 0, ch) <==> ch == x || ch == y
  {
    assert Lists([x, y], 1, ch) <==> ch == y;
  }
}
