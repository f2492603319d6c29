/** What the `\u` escapes of JSON strings stand for. */
module JsonEscapes {
  import opened Wrappers
  import opened JsonText
  import U = Utf8

  /** A code point that is no surrogate. */
  predicate IsScalar(cp: nat) {
    cp < 0xD800 || 0xE000 <= cp < 0x110000
  }

  /**
   * The escape whose `u` is at pos and whose last digit is at end stands for the code point: its
   * four digits, or the four digits of a high and of a low surrogate.
   */
  predicate StandsFor(text: string, pos: nat, end: nat, cp: nat) {
    IsScalar(cp) &&
    if cp < 0x10000 then Hex4(text, pos + 1) == Some(cp) && end == pos + 4
    else
      && Hex4(text, pos + 1) == Some(0xD800 + (cp - 0x10000) / 1024) && At(text, pos + 5) == '\\' && At(text, pos + 6) == 'u'
      && Hex4(text, pos + 7) == Some(0xDC00 + (cp - 0x10000) % 1024) && end == pos + 10
  }

  /** parse_utf16 succeeds exactly for such escapes, with the bytes of their code point. */
  lemma ParsesEscapes(text: string, pos: nat, bytes: string, end: nat)
    ensures ParseUtf16(text, pos) == Some((bytes, end)) <==> exists cp: nat :: StandsFor(text, pos, end, cp) && bytes == JsonText.Utf8(cp)
  {
    hide Hex4, JsonText.Utf8;
    if ParseUtf16(text, pos) == Some((bytes, end)) {
      var high := Hex4(text, pos + 1).value;
      if 0xD800 <= high <= 0xDBFF {
        var low := Hex4(text, pos + 7).value;
        Halves(high - 0xD800, low - 0xDC00);
        assert StandsFor(text, pos, end, (high - 0xD800) * 1024 + (low - 0xDC00) + 0x10000);
      } else {
        assert StandsFor(text, pos, end, high);
      }
    }
    if cp: nat :| StandsFor(text, pos, end, cp) && bytes == JsonText.Utf8(cp) {
      if cp >= 0x10000 {
        Joined(cp - 0x10000);
      }
    }
  }

  lemma Halves(a: nat, b: nat)
    requires a < 1024 && b < 1024
    ensures (a * 1024 + b) / 1024 == a && (a * 1024 + b) % 1024 == b && a * 1024 + b < 0x10_0000
  {}

  lemma Joined(n: nat)
    requires n < 0x10_0000
    ensures n / 1024 < 1024 && n % 1024 < 1024 && n / 1024 * 1024 + n % 1024 == n
  {}

  // -------------------------------------------------------------------- escapes as printed

  /** The letter that stands for a byte behind a backslash (RFC 8259, section 7), if there is one. */
  function Letter(c: char): Option<char> {
    match c as int
    case 34 => Some('\"')
    case 92 => Some('\\')
    case 8 => Some('b')
    case 12 => Some('f')
    case 10 => Some('n')
    case 13 => Some('r')
    case 9 => Some('t')
    case _ => None
  }

  /**
   * How a byte is printed: behind a backslash by its letter; a slash behind a backslash exactly when
   * that is asked for; other control characters by their number; everything else as it is.
   */
  lemma EscapesAre(c: char, escapeSlashes: bool)
    ensures Letter(c).Some? ==> Escape(c, escapeSlashes) == ['\\', Letter(c).value]
    ensures c == '/' ==> Escape(c, escapeSlashes) == if escapeSlashes then ['\\', '/'] else ['/']
    ensures Letter(c).None? && c < 32 as char ==>
              |Escape(c, escapeSlashes)| == 6 && Escape(c, escapeSlashes)[..2] == ['\\', 'u'] && Hex4(Escape(c, escapeSlashes), 2) == Some(c as int)
    ensures Letter(c).None? && c >= 32 as char && c != '/' ==> Escape(c, escapeSlashes) == [c]
  {
    if Letter(c).None? && c < 32 as char {
      ControlEscape(c, escapeSlashes);
    }
  }

  lemma ControlEscape(c: char, escapeSlashes: bool)
    requires Letter(c).None? && c < 32 as char
    ensures |Escape(c, escapeSlashes)| == 6 && Escape(c, escapeSlashes)[..2] == ['\\', 'u'] && Hex4(Escape(c, escapeSlashes), 2) == Some(c as int)
  {
    var e, high, low := Escape(c, escapeSlashes), c as nat / 16, c as nat % 16;
    ControlShape(c, escapeSlashes);
    DigitIs(high);
    DigitIs(low);
    hide HexDigit, HexValue, Escape;
    assert e[0] == '\\' && e[1] == 'u' && e[2] == '0' && e[3] == '0' && e[4] == HexDigit(high) && e[5] == HexDigit(low);
    ZeroIs();
    assert e[..2] == ['\\', 'u'];
  }

  lemma ControlShape(c: char, escapeSlashes: bool)
    requires Letter(c).None? && c < 32 as char
    ensures Escape(c, escapeSlashes) == ['\\', 'u', '0', '0', HexDigit(c as nat / 16), HexDigit(c as nat % 16)]
  {
    hide HexDigit;
  }

  lemma ZeroIs()
    ensures HexValue('0') == 0
  {}

  lemma DigitIs(d: nat)
    requires d < 16
    ensures HexValue(HexDigit(d)) == d && HexDigit(d) != NUL
  {}

  /** The four digits of a number, the highest first. */
  lemma FourDigits(n: nat)
    requires n < 0x10000
    ensures Hex4([HexDigit(n / 4096), HexDigit(n / 256 % 16), HexDigit(n / 16 % 16), HexDigit(n % 16)], 0) == Some(n)
  {
    DigitIs(n / 4096);
    DigitIs(n / 256 % 16);
    DigitIs(n / 16 % 16);
    DigitIs(n % 16);
    hide HexDigit, HexValue;
    Positions(n);
  }

  lemma Positions(n: nat)
    ensures ((n / 4096 * 16 + n / 256 % 16) * 16 + n / 16 % 16) * 16 + n % 16 == n
  {
    LastDigit(n);
    LastDigit(n / 16);
    LastDigit(n / 256);
    Nested(n);
  }

  lemma LastDigit(n: nat)
    ensures n / 16 * 16 + n % 16 == n
  {}

  lemma Nested(n: nat)
    ensures n / 16 / 16 == n / 256 && n / 256 / 16 == n / 4096
  {}

  /** The hexadecimal digits in either case, and nothing else. */
  lemma HexValuesAre()
    ensures forall d | 0 <= d < 10 :: HexValue("0123456789"[d]) == d
    ensures forall d | 0 <= d < 6 :: HexValue("abcdef"[d]) == 10 + d && HexValue("ABCDEF"[d]) == 10 + d
    ensures forall c: char :: HexValue(c) >= 0 <==> c in "0123456789abcdefABCDEF"
  {
    forall d | 0 <= d < 10 ensures HexValue("0123456789"[d]) == d {
      DecimalIs(d);
    }
    forall d | 0 <= d < 6 ensures HexValue("abcdef"[d]) == 10 + d && HexValue("ABCDEF"[d]) == 10 + d {
      LetterIs(d);
    }
    hide HexValue;
    forall c: char ensures HexValue(c) >= 0 <==> c in "0123456789abcdefABCDEF" {
      IsDigit(c);
    }
  }

  lemma DecimalIs(d: nat)
    requires d < 10
    ensures HexValue("0123456789"[d]) == d
  {
    assert "0123456789"[d] == '0' + d as char;
  }

  lemma LetterIs(d: nat)
    requires d < 6
    ensures HexValue("abcdef"[d]) == 10 + d && HexValue("ABCDEF"[d]) == 10 + d
  {
    assert "abcdef"[d] == 'a' + d as char && "ABCDEF"[d] == 'A' + d as char;
  }

  lemma IsDigit(c: char)
    ensures HexValue(c) >= 0 <==> c in "0123456789abcdefABCDEF"
  {
    var all := "0123456789abcdefABCDEF";
    if 0 <= HexValue(c) {
      var v := HexValue(c);
      assert c == all[v] || (v >= 10 && c == all[v + 6]);
    } else {
      forall i | 0 <= i < |all| ensures all[i] != c {
        assert HexValue(all[i]) >= 0;
      }
    }
  }

  function AsByte(c: char): U.U8
    requires c < 256 as char
  {
    c as int as U.U8
  }

  function AsBytes(s: string): seq<U.U8>
    requires forall i | 0 <= i < |s| :: s[i] < 256 as char
  {
    seq(|s|, i requires 0 <= i < |s| => AsByte(s[i]))
  }

  /** The code point that some bytes encode (RFC 3629, section 3). */
  function CodePoint(s: seq<U.U8>): nat
    requires 1 <= |s| <= 4 && U.CharLength(s, 0) == |s|
  {
    match |s|
    case 1 => s[0] as int
    case 2 => (s[0] as int - 0xC0) * 64 + (s[1] as int - 0x80)
    case 3 => ((s[0] as int - 0xE0) * 64 + (s[1] as int - 0x80)) * 64 + (s[2] as int - 0x80)
    case _ => (((s[0] as int - 0xF0) * 64 + (s[1] as int - 0x80)) * 64 + (s[2] as int - 0x80)) * 64 + (s[3] as int - 0x80)
  }

  /** The bytes are one character of UTF-8, the one of the code point. */
  predicate Encodes(bytes: string, cp: nat) {
    && 1 <= |bytes| <= 4
    && (forall i | 0 <= i < |bytes| :: bytes[i] < 256 as char)
    && U.CharLength(AsBytes(bytes), 0) == |bytes| && CodePoint(AsBytes(bytes)) == cp
  }

  /** The bytes written for a code point. */
  lemma EncodesCodePoint(cp: nat)
    requires IsScalar(cp)
    ensures Encodes(JsonText.Utf8(cp), cp)
  {
    hide JsonText.Utf8, Encodes;
    if cp < 0x800 {
      EncodesTwo(cp);
    } else if cp < 0x10000 {
      EncodesThree(cp);
    } else {
      EncodesFour(cp);
    }
  }

  lemma EncodesTwo(cp: nat)
    requires cp < 0x800
    ensures Encodes(JsonText.Utf8(cp), cp)
  {}

  lemma EncodesThree(cp: nat)
    requires 0x800 <= cp < 0x10000 && IsScalar(cp)
    ensures Encodes(JsonText.Utf8(cp), cp)
  {
    Digits(cp);
  }

  lemma EncodesFour(cp: nat)
    requires 0x10000 <= cp < 0x110000
    ensures Encodes(JsonText.Utf8(cp), cp)
  {
    Digits(cp);
  }

  lemma Digits(cp: nat)
    requires cp < 0x110000
    ensures cp == cp / 64 * 64 + cp % 64 && cp / 64 == cp / 4096 * 64 + cp / 64 % 64 && cp / 4096 == cp / 262144 * 64 + cp / 4096 % 64
    ensures cp / 262144 <= 4
  {}
}
