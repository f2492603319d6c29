/**
 * The serializer, which runs twice: once without a buffer to measure the text and once to
 * write it.
 */
module JsonSerializer {
  import opened JsonText

  /** The places a call may write to. */
  ghost function Footprint(buf: array?<char>): set<object> {
    if buf == null then {} else {buf}
  }

  /** There is room for `s` and the NUL after it, unless nothing is to be written. */
  ghost predicate Room(buf: array?<char>, at: nat, s: string) {
    buf == null || at + |s| < buf.Length
  }

  /** `s` stands at `at`, unless nothing is written. */
  ghost predicate Wrote(buf: array?<char>, at: nat, s: string)
    reads Footprint(buf)
  {
    buf == null || (at + |s| < buf.Length && buf[at..at + |s|] == s)
  }

  /** `s` stands at `at` and a NUL follows. */
  ghost predicate WroteText(buf: array?<char>, at: nat, s: string)
    reads Footprint(buf)
  {
    Wrote(buf, at, s) && (buf == null || buf[at + |s|] == NUL)
  }

  /** Nothing changes but the `n` bytes from `at` on. */
  twostate predicate Only(buf: array?<char>, at: nat, n: nat)
    reads Footprint(buf)
  {
    buf == null || forall k | 0 <= k < buf.Length && !(at <= k < at + n) :: buf[k] == old(buf[k])
  }

  /** append_string */
  method AppendString(buf: array?<char>, at: nat, s: string) returns (written: nat)
    requires Room(buf, at, s)
    modifies Footprint(buf)
    ensures written == |s| && WroteText(buf, at, s) && Only(buf, at, |s| + 1)
  {
    if buf != null {
      forall k | 0 <= k < |s| {
        buf[at + k] := s[k];
      }
      buf[at + |s|] := NUL;
    }
    return |s|;
  }

  /** Append `piece` to the part of `full` that is written already. */
  method Append(buf: array?<char>, at: nat, total: nat, piece: string, ghost full: string) returns (total': nat)
    requires Matches(full, total, piece) && Room(buf, at, full) && Wrote(buf, at, full[..total])
    modifies Footprint(buf)
    ensures total' == total + |piece| <= |full| && WroteText(buf, at, full[..total']) && Only(buf, at + total, |piece| + 1)
  {
    var written := AppendString(buf, at + total, piece);
    total' := total + written;
    assert full[..total'] == full[..total] + piece;
    if buf != null {
      assert buf[at..at + total'] == buf[at..at + total] + buf[at + total..at + total'];
    }
  }

  /** Append one byte; unlike AppendString this writes no NUL after it. */
  method AppendByte(buf: array?<char>, at: nat, total: nat, c: char, ghost full: string) returns (total': nat)
    requires Matches(full, total, [c]) && Room(buf, at, full) && Wrote(buf, at, full[..total])
    modifies Footprint(buf)
    ensures total' == total + 1 <= |full| && Wrote(buf, at, full[..total']) && Only(buf, at + total, 1)
  {
    if buf != null {
      buf[at + total] := c;
    }
    total' := total + 1;
    assert full[..total'] == full[..total] + [full[total]];
    assert full[total] == full[total..total + 1][0] == c;
    if buf != null {
      assert buf[at..at + total'] == buf[at..at + total] + [c];
    }
  }

  /** The default branch of json_serialize_string: bytes copied as they are. */
  predicate Copied(c: char) {
    c != '\"' && c != '\\' && c != '/' && c >= 32 as char
  }

  lemma CopiedEscape(c: char, escapeSlashes: bool)
    ensures Copied(c) ==> Escape(c, escapeSlashes) == [c]
  {}

  /** What is left to print before byte i is its escape and what is left after it. */
  lemma EscapeStep(s: string, i: nat, escapeSlashes: bool, full: string, total: nat)
    requires i < |s| && total <= |full| && full[total..] == EscapeAll(s[i..], escapeSlashes) + "\""
    ensures Matches(full, total, Escape(s[i], escapeSlashes))
    ensures full[total + |Escape(s[i], escapeSlashes)|..] == EscapeAll(s[i + 1..], escapeSlashes) + "\""
  {
    hide Escape;
    var piece := Escape(s[i], escapeSlashes);
    assert s[i..][1..] == s[i + 1..];
    assert full[total..] == piece + (EscapeAll(s[i + 1..], escapeSlashes) + "\"");
    assert full[total..total + |piece|] == full[total..][..|piece|];
    assert full[total + |piece|..] == full[total..][|piece|..];
  }

  /** One byte of a string, escaped if it has to be. */
  method PutEscaped(buf: array?<char>, at: nat, written: nat, c: char, escapeSlashes: bool, ghost full: string) returns (total: nat)
    requires Matches(full, written, Escape(c, escapeSlashes)) && Room(buf, at, full) && Wrote(buf, at, full[..written])
    modifies Footprint(buf)
    ensures total == written + |Escape(c, escapeSlashes)| <= |full| && Wrote(buf, at, full[..total]) && Only(buf, at, |full| + 1)
  {
    hide Escape, Matches, Copied;
    CopiedEscape(c, escapeSlashes);
    if Copied(c) {
      total := AppendByte(buf, at, written, c, full);
    } else {
      total := Append(buf, at, written, Escape(c, escapeSlashes), full);
    }
  }

  /** json_serialize_string */
  method SerializeString(s: string, escapeSlashes: bool, buf: array?<char>, at: nat) returns (written: nat)
    requires Room(buf, at, Quoted(s, escapeSlashes))
    modifies Footprint(buf)
    ensures written == |Quoted(s, escapeSlashes)|
    ensures WroteText(buf, at, Quoted(s, escapeSlashes)) && Only(buf, at, written + 1)
  {
    ghost var full := Quoted(s, escapeSlashes);
    QuotedParts(s, escapeSlashes);
    hide Escape, EscapeAll, Quoted, Copied, Matches;
    written := Append(buf, at, 0, "\"", full);
    written := PutBytes(buf, at, written, s, escapeSlashes, full);
    QuotedEnd(s, escapeSlashes, written);
    written := Append(buf, at, written, "\"", full);
  }

  /** The loop over the bytes of a string. */
  method PutBytes(buf: array?<char>, at: nat, written: nat, s: string, escapeSlashes: bool, ghost full: string) returns (total: nat)
    requires written <= |full| && full[written..] == EscapeAll(s[0..], escapeSlashes) + "\"" && Room(buf, at, full) && Wrote(buf, at, full[..written])
    modifies Footprint(buf)
    ensures total <= |full| && full[total..] == EscapeAll(s[|s|..], escapeSlashes) + "\"" && Wrote(buf, at, full[..total]) && Only(buf, at, |full| + 1)
  {
    hide Escape, EscapeAll, Copied, Matches;
    total := written;
    for i := 0 to |s|
      invariant total <= |full| && full[total..] == EscapeAll(s[i..], escapeSlashes) + "\""
      invariant Wrote(buf, at, full[..total]) && Only(buf, at, |full| + 1)
    {
      EscapeStep(s, i, escapeSlashes, full, total);
      total := PutEscaped(buf, at, total, s[i], escapeSlashes, full);
    }
  }

  lemma QuotedParts(s: string, escapeSlashes: bool)
    ensures Matches(Quoted(s, escapeSlashes), 0, "\"")
    ensures Quoted(s, escapeSlashes)[1..] == EscapeAll(s[0..], escapeSlashes) + "\""
  {
    assert s[0..] == s;
  }

  lemma QuotedEnd(s: string, escapeSlashes: bool, written: nat)
    requires written <= |Quoted(s, escapeSlashes)|
    requires Quoted(s, escapeSlashes)[written..] == EscapeAll(s[|s|..], escapeSlashes) + "\""
    ensures Matches(Quoted(s, escapeSlashes), written, "\"") && written + 1 == |Quoted(s, escapeSlashes)|
  {
    hide Quoted;
    assert s[|s|..] == "";
  }

  // --------------------------------------------------------------------------- values

  /** The first `written` bytes of `full` stand at `at`, and `rest` is what is still to come. */
  ghost predicate Progress(buf: array?<char>, at: nat, full: string, written: nat, rest: string)
    reads Footprint(buf)
  {
    written <= |full| && full[written..] == rest && Room(buf, at, full) && Wrote(buf, at, full[..written])
  }

  lemma Reassociate(a: string, b: string, c: string)
    ensures a + b + c == a + (b + c)
  {}

  lemma SplitFull(full: string, written: nat, piece: string, rest: string)
    requires written <= |full| && full[written..] == piece + rest
    ensures written + |piece| <= |full| && full[..written] + piece == full[..written + |piece|]
    ensures full[written + |piece|..] == rest && Matches(full, written, piece)
  {
    assert full == full[..written] + (piece + rest);
    assert full[written..written + |piece|] == full[written..][..|piece|];
    assert full[written + |piece|..] == full[written..][|piece|..];
  }

  /** A piece written where the last one ended extends what stands in the buffer. */
  lemma Extended(buf: array?<char>, at: nat, full: string, written: nat, piece: string, rest: string)
    requires Progress(buf, at, full, written, piece + rest) && Wrote(buf, at + written, piece)
    ensures Progress(buf, at, full, written + |piece|, rest)
  {
    SplitFull(full, written, piece, rest);
    if buf != null {
      var last := at + written + |piece|;
      assert buf[at..last] == buf[at..at + written] + buf[at + written..last];
    }
  }

  /** APPEND_STRING, done only when a condition holds. */
  method Put(buf: array?<char>, at: nat, written: nat, when: bool, piece: string, ghost full: string, ghost rest: string)
      returns (total: nat)
    requires Progress(buf, at, full, written, (if when then piece else "") + rest)
    modifies Footprint(buf)
    ensures Progress(buf, at, full, total, rest) && Only(buf, at, |full| + 1)
    ensures when ==> total == written + |piece| && WroteText(buf, at, full[..total])
  {
    total := written;
    SplitFull(full, written, if when then piece else "", rest);
    if when {
      hide Matches;
      total := Append(buf, at, written, piece, full);
    }
  }

  /** append_indent, done only when a condition holds. */
  method PutIndent(buf: array?<char>, at: nat, written: nat, when: bool, level: nat, ghost full: string, ghost rest: string)
      returns (total: nat)
    requires Progress(buf, at, full, written, (if when then Indent(level) else "") + rest)
    modifies Footprint(buf)
    ensures Progress(buf, at, full, total, rest) && Only(buf, at, |full| + 1)
  {
    total := written;
    SplitFull(full, written, if when then Indent(level) else "", rest);
    if when {
      for i := 0 to level
        invariant Progress(buf, at, full, total, Indent(level - i) + rest) && Only(buf, at, |full| + 1)
      {
        Reassociate("    ", Indent(level - i - 1), rest);
        total := Put(buf, at, total, true, "    ", full, Indent(level - i - 1) + rest);
      }
      assert "" + rest == rest;
    }
  }

  /** The printed items from i on, in the order the loop writes their parts. */
  lemma ItemParts<N>(v: Json<N>, i: nat, level: nat, style: Style, codec: Codec<N>, end: string)
    requires v.Array? && i < |v.items|
    ensures PrintItems(v, i, level, style, codec) + end
         == Margin(level + 1, style) + (Print(v.items[i], level + 1, style, codec)
            + ((if i < |v.items| - 1 then "," else "") + (Break(style) + (PrintItems(v, i + 1, level, style, codec) + end))))
  {
    hide Print, Margin, Break;
  }

  lemma MemberParts<N>(v: Json<N>, i: nat, level: nat, style: Style, codec: Codec<N>, end: string)
    requires v.Object? && i < |v.members|
    ensures PrintMembers(v, i, level, style, codec) + end
         == Margin(level + 1, style) + (Quoted(v.members[i].name, style.escapeSlashes) + (":" + ((if style.pretty then " " else "")
            + (Print(v.members[i].value, level + 1, style, codec)
            + ((if i < |v.members| - 1 then "," else "") + (Break(style) + (PrintMembers(v, i + 1, level, style, codec) + end)))))))
  {
    var space, comma := if style.pretty then " " else "", if i < |v.members| - 1 then "," else "";
    var a, b, e := Margin(level + 1, style), Quoted(v.members[i].name, style.escapeSlashes), Print(v.members[i].value, level + 1, style, codec);
    var g, h := Break(style), PrintMembers(v, i + 1, level, style, codec);
    MemberIs(v, i, level, style, codec);
    hide *;
    Reassociate(a + b + ":" + space + e + comma + g, h, end);
    Reassociate(a + b + ":" + space + e + comma, g, h + end);
    Regroup(a + b, ":", space, e, comma);
    Regroup3(a, b, ":", space + (e + comma), g + (h + end));
    Reassociate(space, e + comma, g + (h + end));
    Reassociate(e, comma, g + (h + end));
  }

  lemma MemberIs<N>(v: Json<N>, i: nat, level: nat, style: Style, codec: Codec<N>)
    requires v.Object? && i < |v.members|
    ensures PrintMembers(v, i, level, style, codec)
         == Margin(level + 1, style) + Quoted(v.members[i].name, style.escapeSlashes) + ":" + (if style.pretty then " " else "")
            + Print(v.members[i].value, level + 1, style, codec)
            + (if i < |v.members| - 1 then "," else "") + Break(style)
            + PrintMembers(v, i + 1, level, style, codec)
  {
    hide Print, Margin, Break, Quoted;
  }

  lemma Regroup3(a: string, b: string, c: string, d: string, e: string)
    ensures (a + b) + (c + d) + e == a + (b + (c + (d + e)))
  {
    Reassociate(a + b, c + d, e);
    Reassociate(c, d, e);
    Reassociate(a, b, c + (d + e));
  }

  /** An array: what its loop writes, between the brackets. */
  lemma ArrayParts<N>(v: Json<N>, level: nat, style: Style, codec: Codec<N>)
    requires v.Array?
    ensures Print(v, level, style, codec)
         == "[" + ((if |v.items| > 0 && style.pretty then "\n" else "")
            + (PrintItems(v, 0, level, style, codec) + ((if |v.items| > 0 && style.pretty then Indent(level) else "") + "]")))
  {
    hide Indent, Print;
    ArrayPieces(v, level, style, codec);
    if v.items != [] {
      hide PrintItems;
      Regroup("[", Break(style), PrintItems(v, 0, level, style, codec), Margin(level, style), "]");
    }
  }

  lemma ArrayPieces<N>(v: Json<N>, level: nat, style: Style, codec: Codec<N>)
    requires v.Array?
    ensures Print(v, level, style, codec)
         == if v.items == [] then "[]"
            else "[" + Break(style) + PrintItems(v, 0, level, style, codec) + Margin(level, style) + "]"
  {
    hide Indent, PrintItems;
  }

  lemma ObjectParts<N>(v: Json<N>, level: nat, style: Style, codec: Codec<N>)
    requires v.Object?
    ensures Print(v, level, style, codec)
         == "{" + ((if |v.members| > 0 && style.pretty then "\n" else "")
            + (PrintMembers(v, 0, level, style, codec) + ((if |v.members| > 0 && style.pretty then Indent(level) else "") + "}")))
  {
    hide Indent, Print;
    ObjectPieces(v, level, style, codec);
    if v.members != [] {
      hide PrintMembers;
      Regroup("{", Break(style), PrintMembers(v, 0, level, style, codec), Margin(level, style), "}");
    }
  }

  lemma ObjectPieces<N>(v: Json<N>, level: nat, style: Style, codec: Codec<N>)
    requires v.Object?
    ensures Print(v, level, style, codec)
         == if v.members == [] then "{}"
            else "{" + Break(style) + PrintMembers(v, 0, level, style, codec) + Margin(level, style) + "}"
  {
    hide Indent, PrintMembers;
  }

  lemma Regroup(a: string, b: string, c: string, d: string, e: string)
    ensures a + b + c + d + e == a + (b + (c + (d + e)))
  {
    Reassociate(a + b + c, d, e);
    Reassociate(a + b, c, d + e);
    Reassociate(a, b, c + (d + e));
  }

  lemma Started(buf: array?<char>, at: nat, full: string)
    requires Room(buf, at, full)
    ensures Progress(buf, at, full, 0, full)
  {}

  lemma Finished(buf: array?<char>, at: nat, full: string, written: nat)
    requires Progress(buf, at, full, written, "")
    ensures written == |full| && full[..written] == full
  {
    assert full[..written] == full;
  }

  /** The recursive call of json_serialize_to_buffer_r. */
  method PutValue<N>(v: Json<N>, level: nat, style: Style, codec: Codec<N>, buf: array?<char>, at: nat, written: nat,
                     ghost full: string, ghost rest: string)
      returns (total: nat)
    requires Progress(buf, at, full, written, Print(v, level, style, codec) + rest)
    modifies Footprint(buf)
    decreases v, 3
    ensures Progress(buf, at, full, total, rest) && Only(buf, at, |full| + 1)
  {
    ghost var piece := Print(v, level, style, codec);
    hide Print;
    SplitFull(full, written, piece, rest);
    var n := SerializeR(v, level, style, codec, buf, at + written);
    assert buf == null || buf[at..at + written] == old(buf[at..at + written]);
    Extended(buf, at, full, written, piece, rest);
    total := written + n;
  }

  method PutString(s: string, escapeSlashes: bool, buf: array?<char>, at: nat, written: nat, ghost full: string, ghost rest: string)
      returns (total: nat)
    requires Progress(buf, at, full, written, Quoted(s, escapeSlashes) + rest)
    modifies Footprint(buf)
    ensures Progress(buf, at, full, total, rest) && Only(buf, at, |full| + 1)
  {
    ghost var piece := Quoted(s, escapeSlashes);
    hide Quoted;
    SplitFull(full, written, piece, rest);
    var n := SerializeString(s, escapeSlashes, buf, at + written);
    assert buf == null || buf[at..at + written] == old(buf[at..at + written]);
    Extended(buf, at, full, written, piece, rest);
    total := written + n;
  }

  /** One round of the loop over the items. */
  method PutItem<N>(v: Json<N>, i: nat, level: nat, style: Style, codec: Codec<N>, buf: array?<char>, at: nat, written: nat,
                   ghost full: string, ghost end: string)
      returns (total: nat)
    requires v.Array? && i < |v.items| && Progress(buf, at, full, written, PrintItems(v, i, level, style, codec) + end)
    modifies Footprint(buf)
    decreases v, 0
    ensures Progress(buf, at, full, total, PrintItems(v, i + 1, level, style, codec) + end) && Only(buf, at, |full| + 1)
  {
    hide Print, PrintItems, Indent, Progress, Wrote, Room;
    ItemParts(v, i, level, style, codec, end);
    ghost var after := PrintItems(v, i + 1, level, style, codec) + end;
    ghost var comma := (if i < |v.items| - 1 then "," else "") + (Break(style) + after);
    total := PutIndent(buf, at, written, style.pretty, level + 1, full, Print(v.items[i], level + 1, style, codec) + comma);
    total := PutValue(v.items[i], level + 1, style, codec, buf, at, total, full, comma);
    total := Put(buf, at, total, i < |v.items| - 1, ",", full, Break(style) + after);
    total := Put(buf, at, total, style.pretty, "\n", full, after);
  }

  /** json_serialize_to_buffer_r on an array */
  method SerializeArray<N>(v: Json<N>, level: nat, style: Style, codec: Codec<N>, buf: array?<char>, at: nat) returns (written: nat)
    requires v.Array? && Room(buf, at, Print(v, level, style, codec))
    modifies Footprint(buf)
    decreases v, 1
    ensures written == |Print(v, level, style, codec)|
    ensures WroteText(buf, at, Print(v, level, style, codec)) && Only(buf, at, written + 1)
  {
    hide Print, PrintItems, Indent, Progress, Wrote, Room, WroteText;
    ghost var full := Print(v, level, style, codec);
    ArrayParts(v, level, style, codec);
    Started(buf, at, full);
    var count := |v.items|;
    ghost var end := (if count > 0 && style.pretty then Indent(level) else "") + "]";
    ghost var rest := PrintItems(v, 0, level, style, codec) + end;
    written := Put(buf, at, 0, true, "[", full, (if count > 0 && style.pretty then "\n" else "") + rest);
    written := Put(buf, at, written, count > 0 && style.pretty, "\n", full, rest);
    for i := 0 to count
      invariant Progress(buf, at, full, written, PrintItems(v, i, level, style, codec) + end) && Only(buf, at, |full| + 1)
    {
      written := PutItem(v, i, level, style, codec, buf, at, written, full, end);
    }
    NoItems(v, level, style, codec, end);
    written := PutIndent(buf, at, written, count > 0 && style.pretty, level, full, "]");
    assert "]" + "" == "]";
    written := Put(buf, at, written, true, "]", full, "");
    Finished(buf, at, full, written);
  }

  lemma NoItems<N>(v: Json<N>, level: nat, style: Style, codec: Codec<N>, end: string)
    ensures v.Array? ==> PrintItems(v, |v.items|, level, style, codec) + end == end
    ensures v.Object? ==> PrintMembers(v, |v.members|, level, style, codec) + end == end
  {}

  /** One round of the loop over the members. */
  method PutMember<N>(v: Json<N>, i: nat, level: nat, style: Style, codec: Codec<N>, buf: array?<char>, at: nat, written: nat,
                   ghost full: string, ghost end: string)
      returns (total: nat)
    requires v.Object? && i < |v.members| && Progress(buf, at, full, written, PrintMembers(v, i, level, style, codec) + end)
    modifies Footprint(buf)
    decreases v, 0
    ensures Progress(buf, at, full, total, PrintMembers(v, i + 1, level, style, codec) + end) && Only(buf, at, |full| + 1)
  {
    hide Print, PrintMembers, Indent, Quoted, Progress, Wrote, Room;
    MemberParts(v, i, level, style, codec, end);
    ghost var after := PrintMembers(v, i + 1, level, style, codec) + end;
    ghost var comma := (if i < |v.members| - 1 then "," else "") + (Break(style) + after);
    ghost var value := Print(v.members[i].value, level + 1, style, codec) + comma;
    ghost var space := (if style.pretty then " " else "") + value;
    ghost var name := Quoted(v.members[i].name, style.escapeSlashes);
    total := PutIndent(buf, at, written, style.pretty, level + 1, full, name + (":" + space));
    total := PutString(v.members[i].name, style.escapeSlashes, buf, at, total, full, ":" + space);
    total := Put(buf, at, total, true, ":", full, space);
    total := Put(buf, at, total, style.pretty, " ", full, value);
    total := PutValue(v.members[i].value, level + 1, style, codec, buf, at, total, full, comma);
    total := Put(buf, at, total, i < |v.members| - 1, ",", full, Break(style) + after);
    total := Put(buf, at, total, style.pretty, "\n", full, after);
  }

  /** json_serialize_to_buffer_r on an object */
  method SerializeObject<N>(v: Json<N>, level: nat, style: Style, codec: Codec<N>, buf: array?<char>, at: nat) returns (written: nat)
    requires v.Object? && Room(buf, at, Print(v, level, style, codec))
    modifies Footprint(buf)
    decreases v, 1
    ensures written == |Print(v, level, style, codec)|
    ensures WroteText(buf, at, Print(v, level, style, codec)) && Only(buf, at, written + 1)
  {
    hide Print, PrintMembers, Indent, Quoted, Progress, Wrote, Room, WroteText;
    ghost var full := Print(v, level, style, codec);
    ObjectParts(v, level, style, codec);
    Started(buf, at, full);
    var count := |v.members|;
    ghost var end := (if count > 0 && style.pretty then Indent(level) else "") + "}";
    ghost var rest := PrintMembers(v, 0, level, style, codec) + end;
    written := Put(buf, at, 0, true, "{", full, (if count > 0 && style.pretty then "\n" else "") + rest);
    written := Put(buf, at, written, count > 0 && style.pretty, "\n", full, rest);
    for i := 0 to count
      invariant Progress(buf, at, full, written, PrintMembers(v, i, level, style, codec) + end) && Only(buf, at, |full| + 1)
    {
      written := PutMember(v, i, level, style, codec, buf, at, written, full, end);
    }
    NoItems(v, level, style, codec, end);
    written := PutIndent(buf, at, written, count > 0 && style.pretty, level, full, "}");
    assert "}" + "" == "}";
    written := Put(buf, at, written, true, "}", full, "");
    Finished(buf, at, full, written);
  }

  /**
   * json_serialize_to_buffer_r: writes exactly the printed text and a NUL, and returns its
   * length, whether or not there is a buffer.
   */
  method SerializeR<N>(v: Json<N>, level: nat, style: Style, codec: Codec<N>, buf: array?<char>, at: nat) returns (written: nat)
    requires Room(buf, at, Print(v, level, style, codec))
    modifies Footprint(buf)
    decreases v, 2
    ensures written == |Print(v, level, style, codec)|
    ensures WroteText(buf, at, Print(v, level, style, codec)) && Only(buf, at, written + 1)
  {
    match v
    case Null =>
      written := AppendString(buf, at, "null");
    case Boolean(b) =>
      written := AppendString(buf, at, if b then "true" else "false");
    case Number(n) =>
      written := AppendString(buf, at, codec.show(n));
    case String(s) =>
      written := SerializeString(s, style.escapeSlashes, buf, at);
    case Array(items) =>
      written := SerializeArray(v, level, style, codec, buf, at);
    case Object(members) =>
      written := SerializeObject(v, level, style, codec, buf, at);
  }

  /** json_serialization_size */
  method SerializationSize<N>(v: Json<N>, escapeSlashes: bool, codec: Codec<N>) returns (size: nat)
    ensures size == |Print(v, 0, Style(false, escapeSlashes), codec)| + 1
  {
    var res := SerializeR(v, 0, Style(false, escapeSlashes), codec, null, 0);
    return res + 1;
  }

  /** json_serialize_to_buffer: succeeds exactly when the buffer can hold the text and its NUL. */
  method SerializeToBuffer<N>(v: Json<N>, escapeSlashes: bool, codec: Codec<N>, buf: array<char>) returns (ok: bool)
    modifies buf
    ensures ok == (|Print(v, 0, Style(false, escapeSlashes), codec)| < buf.Length)
    ensures ok ==> WroteText(buf, 0, Print(v, 0, Style(false, escapeSlashes), codec))
    ensures !ok ==> buf[..] == old(buf[..])
  {
    var needed := SerializationSize(v, escapeSlashes, codec);
    if buf.Length < needed {
      return false;
    }
    var written := SerializeR(v, 0, Style(false, escapeSlashes), codec, buf, 0);
    return true;
  }
}
