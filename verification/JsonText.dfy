/**
 * JSON values, the text the serializer prints for them, and what the parser makes of a text.
 *
 * A text is a sequence of bytes, here chars; like a C string it is followed by a NUL.  How a
 * number is printed and read (sprintf, strtod) is a parameter.
 */
module JsonText {
  import opened Wrappers

  const MAX_NESTING: nat := 2048
  const NUL: char := '\0'

  datatype Json<N> =
    | Null
    | Boolean(b: bool)
    | Number(n: N)
    | String(s: string)
    | Array(items: seq<Json<N>>)
    | Object(members: seq<Member<N>>)

  datatype Member<N> = Member(name: string, value: Json<N>)

  /** Printing a number; reading one at a position, which yields it and the number of bytes used. */
  datatype Codec<!N> = Codec(show: N -> string, read: (string, nat) -> Option<(N, nat)>)

  // ------------------------------------------------------------------------- printing

  datatype Style = Style(pretty: bool, escapeSlashes: bool)

  function HexDigit(d: nat): char
    requires d < 16
  {
    if d < 10 then '0' + d as char else 'a' + (d - 10) as char
  }

  /** How json_serialize_string prints one byte. */
  function Escape(c: char, escapeSlashes: bool): (s: string)
    ensures |s| > 0
  {
    if c == '\"' then "\\\""
    else if c == '\\' then "\\\\"
    else if c == 8 as char then "\\b"
    else if c == 12 as char then "\\f"
    else if c == '\n' then "\\n"
    else if c == '\r' then "\\r"
    else if c == '\t' then "\\t"
    else if c < 32 as char then "\\u00" + [HexDigit(c as nat / 16), HexDigit(c as nat % 16)]
    else if c == '/' then (if escapeSlashes then "\\/" else "/")
    else [c]
  }

  function EscapeAll(s: string, escapeSlashes: bool): string {
    if s == "" then "" else Escape(s[0], escapeSlashes) + EscapeAll(s[1..], escapeSlashes)
  }

  function Quoted(s: string, escapeSlashes: bool): string {
    "\"" + EscapeAll(s, escapeSlashes) + "\""
  }

  function Indent(level: nat): string {
    if level == 0 then "" else "    " + Indent(level - 1)
  }

  /** json_serialize_to_buffer_r */
  function Print<N>(v: Json<N>, level: nat, style: Style, codec: Codec<N>): string
    decreases v, 1, 0
  {
    match v
    case Null => "null"
    case Boolean(b) => if b then "true" else "false"
    case Number(n) => codec.show(n)
    case String(s) => Quoted(s, style.escapeSlashes)
    case Array(items) =>
      if items == [] then "[]"
      else "[" + Break(style) + PrintItems(v, 0, level, style, codec) + Margin(level, style) + "]"
    case Object(members) =>
      if members == [] then "{}"
      else "{" + Break(style) + PrintMembers(v, 0, level, style, codec) + Margin(level, style) + "}"
  }

  function Break(style: Style): string {
    if style.pretty then "\n" else ""
  }

  function Margin(level: nat, style: Style): string {
    if style.pretty then Indent(level) else ""
  }

  /** The items from i on. */
  function PrintItems<N>(v: Json<N>, i: nat, level: nat, style: Style, codec: Codec<N>): string
    requires v.Array? && i <= |v.items|
    decreases v, 0, |v.items| - i
  {
    if i == |v.items| then ""
    else
      Margin(level + 1, style) + Print(v.items[i], level + 1, style, codec)
      + (if i < |v.items| - 1 then "," else "") + Break(style)
      + PrintItems(v, i + 1, level, style, codec)
  }

  /** The members from i on. */
  function PrintMembers<N>(v: Json<N>, i: nat, level: nat, style: Style, codec: Codec<N>): string
    requires v.Object? && i <= |v.members|
    decreases v, 0, |v.members| - i
  {
    if i == |v.members| then ""
    else
      Margin(level + 1, style) + Quoted(v.members[i].name, style.escapeSlashes) + ":" + (if style.pretty then " " else "")
      + Print(v.members[i].value, level + 1, style, codec)
      + (if i < |v.members| - 1 then "," else "") + Break(style)
      + PrintMembers(v, i + 1, level, style, codec)
  }

  // -------------------------------------------------------------------------- parsing

  /** The byte at a position; NUL at the end of the text. */
  function At(text: string, pos: nat): char {
    if pos < |text| then text[pos] else NUL
  }

  predicate IsSpace(c: char) {
    c == ' ' || c == '\t' || c == '\n' || c == 11 as char || c == 12 as char || c == '\r'
  }

  function SkipSpace(text: string, pos: nat): (p: nat)
    requires pos <= |text|
    ensures pos <= p <= |text|
    decreases |text| - pos
  {
    if IsSpace(At(text, pos)) then SkipSpace(text, pos + 1) else pos
  }

  /** skip_quotes after its first quote: the position after the closing quote. */
  function SkipQuotes(text: string, pos: nat): (p: Option<nat>)
    requires pos <= |text|
    ensures p.Some? ==> pos < p.value <= |text| && text[p.value - 1] == '\"'
    decreases |text| - pos
  {
    var c := At(text, pos);
    if c == '\"' then Some(pos + 1)
    else if c == NUL then None
    else if c == '\\' then
      if At(text, pos + 1) == NUL then None else SkipQuotes(text, pos + 2)
    else SkipQuotes(text, pos + 1)
  }

  /** hex_char_to_int */
  function HexValue(c: char): (v: int)
    ensures -1 <= v < 16
  {
    if '0' <= c <= '9' then c as int - '0' as int
    else if 'a' <= c <= 'f' then c as int - 'a' as int + 10
    else if 'A' <= c <= 'F' then c as int - 'A' as int + 10
    else -1
  }

  /** parse_utf16_hex */
  function Hex4(text: string, pos: nat): (r: Option<nat>)
    ensures r.Some? ==> r.value < 0x10000
  {
    hide HexValue;
    var a, b, c, d := HexValue(At(text, pos)), HexValue(At(text, pos + 1)), HexValue(At(text, pos + 2)), HexValue(At(text, pos + 3));
    if a == -1 || b == -1 || c == -1 || d == -1 then None else Some(((a * 16 + b) * 16 + c) * 16 + d)
  }

  /** The UTF-8 bytes of a code point, as parse_utf16 writes them. */
  function Utf8(cp: nat): string
    requires cp < 0x110000
  {
    if cp < 0x80 then [cp as char]
    else if cp < 0x800 then [(0xC0 + cp / 64) as char, (0x80 + cp % 64) as char]
    else if cp < 0x10000 then [(0xE0 + cp / 4096) as char, (0x80 + cp / 64 % 64) as char, (0x80 + cp % 64) as char]
    else [(0xF0 + cp / 262144) as char, (0x80 + cp / 4096 % 64) as char, (0x80 + cp / 64 % 64) as char, (0x80 + cp % 64) as char]
  }

  /** parse_utf16 at the `u` of an escape: the bytes it stands for and the position of its last digit. */
  function ParseUtf16(text: string, pos: nat): (r: Option<(string, nat)>)
    ensures r.Some? ==> r.value.1 > pos
  {
    match Hex4(text, pos + 1)
    case None => None
    case Some(cp) =>
      if cp < 0xD800 || cp > 0xDFFF then Some((Utf8(cp), pos + 4))
      else if cp <= 0xDBFF then
        if At(text, pos + 5) != '\\' || At(text, pos + 6) != 'u' then None
        else
          match Hex4(text, pos + 7)
          case None => None
          case Some(trail) =>
            if trail < 0xDC00 || trail > 0xDFFF then None
            else Some((Utf8((cp - 0xD800) * 1024 + (trail - 0xDC00) + 0x10000), pos + 10))
      else None
  }

  /** process_string on the bytes from pos up to end. */
  function ProcessString(text: string, pos: nat, end: nat): Option<string>
    decreases if pos < end then end - pos else 0
  {
    var c := At(text, pos);
    if c == NUL || pos >= end then Some("")
    else if c == '\\' then
      var e := At(text, pos + 1);
      var out: Option<(string, nat)> :=
        if e == '\"' || e == '\\' || e == '/' then Some(([e], pos + 1))
        else if e == 'b' then Some(([8 as char], pos + 1))
        else if e == 'f' then Some(([12 as char], pos + 1))
        else if e == 'n' then Some(("\n", pos + 1))
        else if e == 'r' then Some(("\r", pos + 1))
        else if e == 't' then Some(("\t", pos + 1))
        else if e == 'u' then ParseUtf16(text, pos + 1)
        else None;
      match out
      case None => None
      case Some((bytes, last)) =>
        match ProcessString(text, last + 1, end)
        case None => None
        case Some(rest) => Some(bytes + rest)
    else if c < 32 as char then None
    else
      match ProcessString(text, pos + 1, end)
      case None => None
      case Some(rest) => Some([c] + rest)
  }

  /** get_quoted_string: the processed contents and the position after the closing quote. */
  function ParseQuoted(text: string, pos: nat): (r: Option<(string, nat)>)
    requires pos <= |text|
    ensures r.Some? ==> pos < r.value.1 <= |text|
  {
    if At(text, pos) != '\"' then None
    else
      match SkipQuotes(text, pos + 1)
      case None => None
      case Some(end) =>
        match ProcessString(text, pos + 1, end - 1)
        case None => None
        case Some(s) => Some((s, end))
  }

  /** The text has this word at pos (strncmp). */
  predicate Matches(text: string, pos: nat, word: string) {
    pos + |word| <= |text| && text[pos..pos + |word|] == word
  }

  predicate StartsNumber(c: char) {
    c == '-' || '0' <= c <= '9'
  }

  type Parsed<T> = Option<(T, nat)>

  /** parse_value: the value and the position after it. */
  function ParseValue<N>(text: string, pos0: nat, nesting: nat, codec: Codec<N>): (r: Parsed<Json<N>>)
    requires pos0 <= |text|
    ensures r.Some? ==> pos0 <= r.value.1 <= |text|
    decreases |text| - pos0, 2
  {
    if nesting > MAX_NESTING then None
    else
      var pos := SkipSpace(text, pos0);
      var c := At(text, pos);
      if c == '{' then ParseObject(text, pos, nesting + 1, codec)
      else if c == '[' then ParseArray(text, pos, nesting + 1, codec)
      else if c == '\"' then
        match ParseQuoted(text, pos)
        case None => None
        case Some((s, end)) => Some((String(s), end))
      else if c == 'f' || c == 't' then
        if Matches(text, pos, "true") then Some((Boolean(true), pos + 4))
        else if Matches(text, pos, "false") then Some((Boolean(false), pos + 5))
        else None
      else if StartsNumber(c) then
        match codec.read(text, pos)
        case None => None
        case Some((n, used)) => Some((Number(n), Min(pos + used, |text|)))
      else if c == 'n' && Matches(text, pos, "null") then Some((Null, pos + 4))
      else None
  }

  /** parse_array_value at an opening bracket. */
  function ParseArray<N>(text: string, pos: nat, nesting: nat, codec: Codec<N>): (r: Parsed<Json<N>>)
    requires pos < |text|
    ensures r.Some? ==> pos <= r.value.1 <= |text|
    decreases |text| - pos, 1
  {
    var start := SkipSpace(text, pos + 1);
    if At(text, start) == ']' then Some((Array([]), start + 1))
    else
      match ParseItems(text, start, nesting, codec)
      case None => None
      case Some((items, end)) =>
        var close := SkipSpace(text, end);
        if At(text, close) == ']' then Some((Array(items), close + 1)) else None
  }

  /** The loop of parse_array_value: the items from pos on. */
  function ParseItems<N>(text: string, pos: nat, nesting: nat, codec: Codec<N>): (r: Parsed<seq<Json<N>>>)
    requires pos <= |text|
    ensures r.Some? ==> pos <= r.value.1 <= |text|
    decreases |text| - pos, 3
  {
    if At(text, pos) == NUL then Some(([], pos))
    else
      match ParseValue(text, pos, nesting, codec)
      case None => None
      case Some((v, end)) =>
        var p := SkipSpace(text, end);
        if At(text, p) != ',' then Some(([v], p))
        else
          var q := SkipSpace(text, p + 1);
          if At(text, q) == ']' then Some(([v], q))
          else
            match ParseItems(text, q, nesting, codec)
            case None => None
            case Some((rest, last)) => Some(([v] + rest, last))
  }

  /** parse_object_value at an opening brace. */
  function ParseObject<N>(text: string, pos: nat, nesting: nat, codec: Codec<N>): (r: Parsed<Json<N>>)
    requires pos < |text|
    ensures r.Some? ==> pos <= r.value.1 <= |text|
    decreases |text| - pos, 1
  {
    var start := SkipSpace(text, pos + 1);
    if At(text, start) == '}' then Some((Object([]), start + 1))
    else
      match ParseMembers(text, start, nesting, codec, {})
      case None => None
      case Some((members, end)) =>
        var close := SkipSpace(text, end);
        if At(text, close) == '}' then Some((Object(members), close + 1)) else None
  }

  /** The loop of parse_object_value: the members from pos on; `names` are those already in the object. */
  function ParseMembers<N>(text: string, pos: nat, nesting: nat, codec: Codec<N>, names: set<string>): (r: Parsed<seq<Member<N>>>)
    requires pos <= |text|
    ensures r.Some? ==> pos <= r.value.1 <= |text|
    decreases |text| - pos, 3
  {
    if At(text, pos) == NUL then Some(([], pos))
    else
      match ParseQuoted(text, pos)
      case None => None
      case Some((name, end)) =>
        var colon := SkipSpace(text, end);
        if NUL in name || At(text, colon) != ':' then None
        else
          match ParseValue(text, colon + 1, nesting, codec)
          case None => None
          case Some((v, after)) =>
            var p := SkipSpace(text, after);
            if name in names then None
            else if At(text, p) != ',' then Some(([Member(name, v)], p))
            else
              var q := SkipSpace(text, p + 1);
              if At(text, q) == '}' then Some(([Member(name, v)], q))
              else
                match ParseMembers(text, q, nesting, codec, names + {name})
                case None => None
                case Some((rest, last)) => Some(([Member(name, v)] + rest, last))
  }

  /** json_parse_string: skips a byte order mark; what follows the value is not looked at. */
  function ParseText<N>(text: string, codec: Codec<N>): Option<Json<N>> {
    var start := if At(text, 0) == 0xEF as char && At(text, 1) == 0xBB as char && At(text, 2) == 0xBF as char then 3 else 0;
    match ParseValue(text, start, 0, codec)
    case None => None
    case Some((v, _)) => Some(v)
  }
}
