/**
 * UTF-8 in its two forms: the automaton that measures identifiers and the decoder that checks
 * JSON strings.  Both are held against the syntax of RFC 3629, section 4.
 */
module Utf8 {
  import opened Wrappers

  newtype U8 = b: int | 0 <= b < 256

  // ----------------------------------------------------------------------- the standard

  predicate Tail(b: U8) {
    0x80 <= b <= 0xBF
  }

  /** The bytes from i on, zero behind the end as in a C string. */
  function At(s: seq<U8>, i: nat): U8 {
    if i < |s| then s[i] else 0
  }

  /** The length of the character that begins at i, 0 if there is none. */
  function CharLength(s: seq<U8>, i: nat): nat {
    var a, b, c, d := At(s, i), At(s, i + 1), At(s, i + 2), At(s, i + 3);
    if a <= 0x7F then 1
    else if 0xC2 <= a <= 0xDF && Tail(b) then 2
    else if (if a == 0xE0 then 0xA0 <= b <= 0xBF else if a == 0xED then 0x80 <= b <= 0x9F else 0xE1 <= a <= 0xEF && Tail(b)) && Tail(c) then 3
    else if (if a == 0xF0 then 0x90 <= b <= 0xBF else if a == 0xF4 then 0x80 <= b <= 0x8F else 0xF1 <= a <= 0xF3 && Tail(b)) && Tail(c) && Tail(d) then 4
    else 0
  }

  /** The bytes from i up to n are whole characters. */
  predicate WellFormed(s: seq<U8>, i: nat, n: nat)
    decreases n - i
  {
    i == n || (i < n && CharLength(s, i) > 0 && i + CharLength(s, i) <= n && WellFormed(s, i + CharLength(s, i), n))
  }

  // --------------------------------------------------------------------- JSON strings

  function NumBytes(c: U8): nat {
    if c == 0xC0 || c == 0xC1 || c > 0xF4 || Tail(c) then 0
    else if c < 0x80 then 1
    else if c / 32 == 6 then 2
    else if c / 16 == 14 then 3
    else if c / 8 == 30 then 4
    else 0
  }

  /** verify_utf8_sequence: the length of the sequence at i, 0 for failure. */
  function Verify(s: seq<U8>, i: nat): nat {
    var a, b, c, d := At(s, i), At(s, i + 1), At(s, i + 2), At(s, i + 3);
    var len := NumBytes(a);
    if len == 0 || (len >= 2 && !Tail(b)) || (len >= 3 && !Tail(c)) || (len >= 4 && !Tail(d)) then 0
    else
      var cp :=
        if len == 1 then a as int
        else if len == 2 then (a as int % 32) * 64 + b as int % 64
        else if len == 3 then ((a as int % 16) * 64 + b as int % 64) * 64 + c as int % 64
        else (((a as int % 8) * 64 + b as int % 64) * 64 + c as int % 64) * 64 + d as int % 64;
      if (cp < 0x80 && len > 1) || (cp < 0x800 && len > 2) || (cp < 0x10000 && len > 3) then 0
      else if cp > 0x10FFFF then 0
      else if 0xD800 <= cp <= 0xDFFF then 0
      else len
  }

  /** What the decoder accepts are the characters of the standard. */
  lemma VerifyIsChar(s: seq<U8>, i: nat)
    ensures Verify(s, i) == CharLength(s, i)
  {}

  /** A character does not go on behind the end, where there is no tail. */
  lemma CharInside(s: seq<U8>, i: nat)
    requires i < |s|
    ensures i + CharLength(s, i) <= |s|
  {}

  /** is_valid_utf8 */
  method IsValidUtf8(s: seq<U8>) returns (valid: bool)
    ensures valid <==> WellFormed(s, 0, |s|)
  {
    var i := 0;
    while i < |s|
      invariant 0 <= i <= |s| && (WellFormed(s, i, |s|) <==> WellFormed(s, 0, |s|))
      decreases |s| - i
    {
      VerifyIsChar(s, i);
      CharInside(s, i);
      var len := Verify(s, i);
      if len == 0 {
        return false;
      }
      i := i + len;
    }
    return true;
  }

  // ----------------------------------------------------------------------- the automaton

  /** The first part of utf8d: the class of a byte. */
  function Class(b: U8): nat {
    if b < 0x80 then 0
    else if b < 0x90 then 1
    else if b < 0xA0 then 9
    else if b < 0xC0 then 7
    else if b < 0xC2 then 8
    else if b < 0xE0 then 2
    else if b == 0xE0 then 10
    else if b == 0xED then 4
    else if b < 0xF0 then 3
    else if b == 0xF0 then 11
    else if b < 0xF4 then 6
    else if b == 0xF4 then 5
    else 8
  }

  /** The second part, a row of 16 for each state; state 0 accepts and state 1 is for errors. */
  const ROWS: seq<seq<nat>> := [
    [0, 1, 2, 3, 5, 8, 7, 1, 1, 1, 4, 6, 1, 1, 1, 1],
    [1, 1, 1, 1, 1, 1, 1, 1, 1, 1, 1, 1, 1, 1, 1, 1],
    [1, 0, 1, 1, 1, 1, 1, 0, 1, 0, 1, 1, 1, 1, 1, 1],
    [1, 2, 1, 1, 1, 1, 1, 2, 1, 2, 1, 1, 1, 1, 1, 1],
    [1, 1, 1, 1, 1, 1, 1, 2, 1, 1, 1, 1, 1, 1, 1, 1],
    [1, 2, 1, 1, 1, 1, 1, 1, 1, 2, 1, 1, 1, 1, 1, 1],
    [1, 1, 1, 1, 1, 1, 1, 3, 1, 3, 1, 1, 1, 1, 1, 1],
    [1, 3, 1, 1, 1, 1, 1, 3, 1, 3, 1, 1, 1, 1, 1, 1],
    [1, 3, 1, 1, 1, 1, 1, 1, 1, 1, 1, 1, 1, 1, 1, 1]
  ]

  function Move(state: nat, b: U8): (next: nat)
    requires state < 9
    ensures next < 9
  {
    ROWS[state][Class(b)]
  }

  /** The state after the bytes from i up to j, beginning at a boundary. */
  function Run(s: seq<U8>, i: nat, j: nat): (state: nat)
    requires i <= j <= |s|
    ensures state < 9
  {
    if i == j then 0 else Move(Run(s, i, j - 1), s[j - 1])
  }

  /** What the first byte of a character leads to. */
  lemma FirstMove(b: U8)
    ensures Move(0, b) ==
            if b < 0x80 then 0 else if b < 0xC2 then 1 else if b < 0xE0 then 2 else if b == 0xE0 then 4 else if b == 0xED then 5
            else if b < 0xF0 then 3 else if b == 0xF0 then 6 else if b < 0xF4 then 7 else if b == 0xF4 then 8 else 1
  {}

  /** What a byte leads to within a character. */
  lemma LaterMove(state: nat, b: U8)
    requires 0 < state < 9
    ensures Move(state, b) ==
            if state == 2 && Tail(b) then 0
            else if (state == 3 && Tail(b)) || (state == 4 && 0xA0 <= b <= 0xBF) || (state == 5 && 0x80 <= b <= 0x9F) then 2
            else if (state == 6 && 0x90 <= b <= 0xBF) || (state == 7 && Tail(b)) || (state == 8 && 0x80 <= b <= 0x8F) then 3
            else 1
  {
    hide Tail;
    ClassOfTail(b);
  }

  /** The classes of the tail bytes. */
  lemma ClassOfTail(b: U8)
    ensures Tail(b) <==> Class(b) == 1 || Class(b) == 9 || Class(b) == 7
    ensures 0x80 <= b <= 0x8F <==> Class(b) == 1
    ensures 0x80 <= b <= 0x9F <==> Class(b) == 1 || Class(b) == 9
    ensures 0x90 <= b <= 0xBF <==> Class(b) == 9 || Class(b) == 7
    ensures 0xA0 <= b <= 0xBF <==> Class(b) == 7
    ensures Class(b) < 12
  {}

  /** The first steps of the automaton on four bytes. */
  lemma FourSteps(a: U8, b: U8, c: U8, d: U8)
    ensures var s := [a, b, c, d];
            var q1 := Move(0, a); var q2 := Move(q1, b); var q3 := Move(q2, c); var q4 := Move(q3, d);
            var n := CharLength(s, 0);
            && (n == 1 <==> q1 == 0)
            && (n == 2 ==> q1 != 0 && q2 == 0) && (n == 3 ==> q1 != 0 && q2 != 0 && q3 == 0)
            && (n == 4 ==> q1 != 0 && q2 != 0 && q3 != 0 && q4 == 0)
            && (n == 0 ==> q1 != 0 && q2 != 0 && q3 != 0 && q4 == 1)
            && n <= 4
  {
    hide Move;
    FirstMove(a);
    var q1 := Move(0, a);
    if q1 != 0 {
      LaterMove(q1, b);
      var q2 := Move(q1, b);
      if q2 != 0 {
        LaterMove(q2, c);
        var q3 := Move(q2, c);
        if q3 != 0 {
          LaterMove(q3, d);
        }
      }
    }
  }

  lemma {:induction false} ErrorStays(s: seq<U8>, i: nat, j: nat, k: nat)
    requires i <= j <= k <= |s| && Run(s, i, j) == 1
    ensures Run(s, i, k) == 1
  {
    if j < k {
      ErrorStays(s, i, j, k - 1);
      LaterMove(1, s[k - 1]);
    }
  }

  /** The automaton accepts for the first time where a character ends, and never if there is none. */
  lemma Accepts(s: seq<U8>, i: nat, j: nat)
    requires i < j <= |s|
    ensures var n := CharLength(s, i);
            && (n > 0 && j == i + n ==> Run(s, i, j) == 0)
            && (n == 0 || j < i + n ==> Run(s, i, j) != 0)
  {
    hide Move;
    FourSteps(At(s, i), At(s, i + 1), At(s, i + 2), At(s, i + 3));
    assert CharLength(s, i) == CharLength([At(s, i), At(s, i + 1), At(s, i + 2), At(s, i + 3)], 0);
    hide CharLength;
    assert Run(s, i, i + 1) == Move(0, s[i]);
    if j >= i + 2 {
      assert Run(s, i, i + 2) == Move(Run(s, i, i + 1), s[i + 1]);
    }
    if j >= i + 3 {
      assert Run(s, i, i + 3) == Move(Run(s, i, i + 2), s[i + 2]);
    }
    if j >= i + 4 {
      assert Run(s, i, i + 4) == Move(Run(s, i, i + 3), s[i + 3]);
      if CharLength(s, i) == 0 {
        ErrorStays(s, i, i + 4, j);
      }
    }
  }

  /** How far whole characters reach within the first n bytes. */
  function Whole(s: seq<U8>, i: nat, n: nat): (w: nat)
    requires i <= n
    ensures i <= w <= n
    decreases n - i
  {
    if i < n && CharLength(s, i) > 0 && i + CharLength(s, i) <= n then Whole(s, i + CharLength(s, i), n) else i
  }

  /** That is the longest part that is well-formed. */
  lemma {:induction false} WholeIsLongest(s: seq<U8>, i: nat, n: nat)
    requires i <= n
    ensures WellFormed(s, i, Whole(s, i, n))
    ensures forall k | i <= k <= n && WellFormed(s, i, k) :: k <= Whole(s, i, n)
    decreases n - i
  {
    hide CharLength;
    if i < n && CharLength(s, i) > 0 && i + CharLength(s, i) <= n {
      WholeIsLongest(s, i + CharLength(s, i), n);
    }
  }

  /** utf8length_int on a C string. */
  method Utf8Length(s: seq<U8>, maxlength: int) returns (length: nat)
    requires forall i | 0 <= i < |s| :: s[i] != 0
    ensures length == Whole(s, 0, if maxlength < 0 then 0 else Min(maxlength, |s|))
  {
    hide Move, CharLength;
    ghost var n := if maxlength < 0 then 0 else Min(maxlength, |s|);
    var state, offset := 0, 0;
    length := 0;
    while offset < |s| && offset < maxlength
      invariant length <= offset <= n && state == Run(s, length, offset) && Whole(s, length, n) == Whole(s, 0, n)
      invariant forall j | length < j <= offset :: Run(s, length, j) != 0
    {
      state := Move(state, s[offset]);
      assert state == Run(s, length, offset + 1);
      EndsFirst(s, length, offset + 1);
      if state == 0 {
        length := offset + 1;
      }
      offset := offset + 1;
    }
    if CharLength(s, length) > 0 && length + CharLength(s, length) <= n {
      Accepts(s, length, length + CharLength(s, length));
    }
  }

  /** The first time the automaton accepts a character has ended. */
  lemma EndsFirst(s: seq<U8>, i: nat, j: nat)
    requires i < j <= |s| && forall k | i < k < j :: Run(s, i, k) != 0
    ensures Run(s, i, j) == 0 ==> CharLength(s, i) == j - i
  {
    hide CharLength, Run;
    Accepts(s, i, j);
    var n := CharLength(s, i);
    if 0 < n < j - i {
      Accepts(s, i, i + n);
    }
  }

  /** On a whole string the automaton and the decoder agree. */
  lemma Agreement(s: seq<U8>)
    ensures WellFormed(s, 0, |s|) <==> Whole(s, 0, |s|) == |s|
  {
    WholeIsLongest(s, 0, |s|);
  }

  /** Both routines on one C string: the whole of it is measured exactly when it is found valid. */
  method BothForms(s: seq<U8>) returns (length: nat, valid: bool)
    requires forall i | 0 <= i < |s| :: s[i] != 0
    ensures valid <==> length == |s|
    ensures length <= |s| && WellFormed(s, 0, length)
  {
    length := Utf8Length(s, |s|);
    valid := IsValidUtf8(s);
    Agreement(s);
    WholeIsLongest(s, 0, |s|);
  }
}
