/**
 * The parser as it runs: a cursor that moves over the text in loops.  Each of its methods
 * computes what the function of the same step in JsonText says.
 */
module JsonParser {
  import opened Wrappers
  import opened JsonText

  /** SKIP_WHITESPACES */
  method SkipWhitespaces(text: string, start: nat) returns (pos: nat)
    requires start <= |text|
    ensures pos == SkipSpace(text, start)
  {
    pos := start;
    while IsSpace(At(text, pos))
      invariant pos <= |text| && SkipSpace(text, pos) == SkipSpace(text, start)
      decreases |text| - pos
    {
      pos := pos + 1;
    }
  }

  /** skip_quotes */
  method SkipQuoted(text: string, start: nat) returns (end: Option<nat>)
    requires start <= |text|
    ensures end == if At(text, start) == '\"' then SkipQuotes(text, start + 1) else None
  {
    if At(text, start) != '\"' {
      return None;
    }
    var pos := start + 1;
    while At(text, pos) != '\"'
      invariant start < pos <= |text| && SkipQuotes(text, pos) == SkipQuotes(text, start + 1)
      decreases |text| - pos
    {
      if At(text, pos) == NUL {
        return None;
      } else if At(text, pos) == '\\' {
        pos := pos + 1;
        if At(text, pos) == NUL {
          return None;
        }
      }
      pos := pos + 1;
    }
    return Some(pos + 1);
  }

  /** What remains of a string to process, behind what is processed. */
  ghost function Rest(done: string, rest: Option<string>): Option<string> {
    match rest case None => None case Some(s) => Some(done + s)
  }

  /** process_string */
  method Process(text: string, start: nat, end: nat) returns (r: Option<string>)
    ensures r == ProcessString(text, start, end)
  {
    hide ParseUtf16;
    var pos, output := start, "";
    NothingDone(ProcessString(text, start, end));
    while At(text, pos) != NUL && pos < end
      invariant start <= pos && Rest(output, ProcessString(text, pos, end)) == ProcessString(text, start, end)
      decreases if pos < end then end - pos else 0
    {
      ghost var was, rest := output, ProcessString(text, pos, end);
      if At(text, pos) == '\\' {
        pos := pos + 1;
        match At(text, pos)
        case '\"' => output := output + "\"";
        case '\\' => output := output + "\\";
        case '/' => output := output + "/";
        case 'b' => output := output + [8 as char];
        case 'f' => output := output + [12 as char];
        case 'n' => output := output + "\n";
        case 'r' => output := output + "\r";
        case 't' => output := output + "\t";
        case 'u' =>
          var utf16 := ParseUtf16(text, pos);
          if utf16.None? {
            return None;
          }
          output, pos := output + utf16.value.0, utf16.value.1;
        case _ => return None;
      } else if At(text, pos) < 32 as char {
        return None;
      } else {
        output := output + [At(text, pos)];
      }
      pos := pos + 1;
      ghost var piece := output[|was|..];
      assert output == was + piece;
      Accumulates(was, piece, ProcessString(text, pos, end));
    }
    assert output + "" == output;
    return Some(output);
  }

  lemma NothingDone(rest: Option<string>)
    ensures Rest("", rest) == rest
  {
    if rest.Some? {
      assert "" + rest.value == rest.value;
    }
  }

  lemma Accumulates(done: string, piece: string, rest: Option<string>)
    ensures Rest(done + piece, rest) == Rest(done, Rest(piece, rest))
  {
    if rest.Some? {
      assert done + piece + rest.value == done + (piece + rest.value);
    }
  }

  /** get_quoted_string */
  method GetQuotedString(text: string, start: nat) returns (r: Option<(string, nat)>)
    requires start <= |text|
    ensures r == ParseQuoted(text, start)
  {
    hide ProcessString, SkipQuotes;
    var end := SkipQuoted(text, start);
    if end.None? {
      return None;
    }
    var processed := Process(text, start + 1, end.value - 1);
    if processed.None? {
      return None;
    }
    return Some((processed.value, end.value));
  }

  /** parse_value */
  method Value<N>(text: string, start: nat, nesting: nat, codec: Codec<N>) returns (r: Parsed<Json<N>>)
    requires start <= |text|
    ensures r == ParseValue(text, start, nesting, codec)
    decreases |text| - start, 2
  {
    hide ParseArray, ParseObject, ParseQuoted, SkipSpace, Matches;
    if nesting > MAX_NESTING {
      return None;
    }
    var pos := SkipWhitespaces(text, start);
    match At(text, pos)
    case '{' => r := ObjectValue(text, pos, nesting + 1, codec);
    case '[' => r := ArrayValue(text, pos, nesting + 1, codec);
    case '"' =>
      var s := GetQuotedString(text, pos);
      r := if s.None? then None else Some((String(s.value.0), s.value.1));
    case 'f' => r := BooleanValue<N>(text, pos);
    case 't' => r := BooleanValue<N>(text, pos);
    case 'n' => r := if Matches(text, pos, "null") then Some((Null, pos + 4)) else None;
    case c =>
      if !StartsNumber(c) {
        return None;
      }
      match codec.read(text, pos)
      case None => return None;
      case Some((n, used)) => return Some((Number(n), Min(pos + used, |text|)));
  }

  /** parse_boolean_value */
  method BooleanValue<N>(text: string, pos: nat) returns (r: Parsed<Json<N>>)
    ensures r == if Matches(text, pos, "true") then Some((Boolean(true), pos + 4))
                 else if Matches(text, pos, "false") then Some((Boolean(false), pos + 5)) else None
  {
    if Matches(text, pos, "true") {
      return Some((Boolean(true), pos + 4));
    } else if Matches(text, pos, "false") {
      return Some((Boolean(false), pos + 5));
    }
    return None;
  }

  /** What remains of an array, behind the items that are there. */
  ghost function RestItems<N>(done: seq<N>, rest: Parsed<seq<N>>): Parsed<seq<N>> {
    match rest case None => None case Some((items, end)) => Some((done + items, end))
  }

  lemma MoreItems<N>(done: seq<N>, item: N, rest: Parsed<seq<N>>)
    ensures RestItems(done + [item], rest) == RestItems(done, RestItems([item], rest))
    ensures RestItems([], rest) == rest
  {
    if rest.Some? {
      assert done + [item] + rest.value.0 == done + ([item] + rest.value.0);
      assert [] + rest.value.0 == rest.value.0;
    }
  }

  /** parse_array_value */
  method ArrayValue<N>(text: string, start: nat, nesting: nat, codec: Codec<N>) returns (r: Parsed<Json<N>>)
    requires start < |text|
    ensures r == ParseArray(text, start, nesting, codec)
    decreases |text| - start, 1
  {
    hide ParseValue, SkipSpace;
    var pos := SkipWhitespaces(text, start + 1);
    if At(text, pos) == ']' {
      return Some((Array([]), pos + 1));
    }
    ghost var first := pos;
    ghost var all := ParseItems(text, first, nesting, codec);
    var items: seq<Json<N>>, last := [], false;
    MoreItems(items, Null, all);
    while At(text, pos) != NUL && !last
      invariant start < pos <= |text|
      invariant all == if last then Some((items, pos)) else RestItems(items, ParseItems(text, pos, nesting, codec))
      decreases !last, |text| - pos
    {
      ItemsStep(text, pos, nesting, codec);
      var item := Value(text, pos, nesting, codec);
      if item.None? {
        return None;
      }
      pos := SkipWhitespaces(text, item.value.1);
      if At(text, pos) != ',' {
        last := true;
      } else {
        pos := SkipWhitespaces(text, pos + 1);
        if At(text, pos) == ']' {
          last := true;
        } else {
          MoreItems(items, item.value.0, ParseItems(text, pos, nesting, codec));
        }
      }
      items := items + [item.value.0];
    }
    assert items + [] == items;
    pos := SkipWhitespaces(text, pos);
    if At(text, pos) != ']' {
      return None;
    }
    return Some((Array(items), pos + 1));
  }

  /** One round of the loop over the items. */
  lemma ItemsStep<N>(text: string, pos: nat, nesting: nat, codec: Codec<N>)
    requires pos <= |text| && At(text, pos) != NUL
    ensures ParseItems(text, pos, nesting, codec) ==
            match ParseValue(text, pos, nesting, codec)
            case None => None
            case Some((v, end)) =>
              var p := SkipSpace(text, end);
              if At(text, p) != ',' then Some(([v], p))
              else
                var q := SkipSpace(text, p + 1);
                if At(text, q) == ']' then Some(([v], q)) else RestItems([v], ParseItems(text, q, nesting, codec))
  {
    hide ParseValue, SkipSpace;
  }

  /** A name, a colon and a value, and the white space after them. */
  function MemberAt<N>(text: string, pos: nat, nesting: nat, codec: Codec<N>): (r: Parsed<Member<N>>)
    requires pos <= |text|
    ensures r.Some? ==> pos < r.value.1 <= |text|
  {
    hide ParseValue, ParseQuoted;
    match ParseQuoted(text, pos)
    case None => None
    case Some((name, end)) =>
      var colon := SkipSpace(text, end);
      if NUL in name || At(text, colon) != ':' then None
      else
        match ParseValue(text, colon + 1, nesting, codec)
        case None => None
        case Some((v, after)) => Some((Member(name, v), SkipSpace(text, after)))
  }

  method NextMember<N>(text: string, start: nat, nesting: nat, codec: Codec<N>) returns (r: Parsed<Member<N>>)
    requires start <= |text|
    ensures r == MemberAt(text, start, nesting, codec)
    decreases |text| - start, 0
  {
    hide ParseValue, SkipSpace, ParseQuoted;
    var key := GetQuotedString(text, start);
    if key.None? || NUL in key.value.0 {
      return None;
    }
    var pos := SkipWhitespaces(text, key.value.1);
    if At(text, pos) != ':' {
      return None;
    }
    var value := Value(text, pos + 1, nesting, codec);
    if value.None? {
      return None;
    }
    pos := SkipWhitespaces(text, value.value.1);
    return Some((Member(key.value.0, value.value.0), pos));
  }

  /** One round of the loop over the members. */
  lemma MembersStep<N>(text: string, pos: nat, nesting: nat, codec: Codec<N>, names: set<string>)
    requires pos <= |text| && At(text, pos) != NUL
    ensures ParseMembers(text, pos, nesting, codec, names) ==
            match MemberAt(text, pos, nesting, codec)
            case None => None
            case Some((m, p)) =>
              if m.name in names then None
              else if At(text, p) != ',' then Some(([m], p))
              else
                var q := SkipSpace(text, p + 1);
                if At(text, q) == '}' then Some(([m], q))
                else RestItems([m], ParseMembers(text, q, nesting, codec, names + {m.name}))
  {
    hide ParseValue, SkipSpace, ParseQuoted;
  }

  /** parse_object_value; json_object_add refuses a name that is already there. */
  method ObjectValue<N>(text: string, start: nat, nesting: nat, codec: Codec<N>) returns (r: Parsed<Json<N>>)
    requires start < |text|
    ensures r == ParseObject(text, start, nesting, codec)
    decreases |text| - start, 1
  {
    hide ParseValue, SkipSpace, ParseQuoted, MemberAt, At;
    var pos := SkipWhitespaces(text, start + 1);
    if At(text, pos) == '}' {
      return Some((Object([]), pos + 1));
    }
    ghost var all := ParseMembers(text, pos, nesting, codec, {});
    var members: seq<Member<N>>, names: set<string>, last := [], {}, false;
    MoreItems(members, Member("", Null), all);
    while At(text, pos) != NUL && !last
      invariant start < pos <= |text|
      invariant all == if last then Some((members, pos)) else RestItems(members, ParseMembers(text, pos, nesting, codec, names))
      decreases !last, |text| - pos
    {
      MembersStep(text, pos, nesting, codec, names);
      var next := NextMember(text, pos, nesting, codec);
      if next.None? || next.value.0.name in names {
        return None;
      }
      var member := next.value.0;
      pos := next.value.1;
      if At(text, pos) != ',' {
        last := true;
      } else {
        pos := SkipWhitespaces(text, pos + 1);
        if At(text, pos) == '}' {
          last := true;
        } else {
          MoreItems(members, member, ParseMembers(text, pos, nesting, codec, names + {member.name}));
        }
      }
      members := members + [member];
      names := names + {member.name};
    }
    assert members + [] == members;
    pos := SkipWhitespaces(text, pos);
    if At(text, pos) != '}' {
      return None;
    }
    return Some((Object(members), pos + 1));
  }

  /** json_parse_string */
  method ParseString<N>(text: string, codec: Codec<N>) returns (r: Option<Json<N>>)
    ensures r == ParseText(text, codec)
  {
    hide ParseValue;
    var start := if At(text, 0) == 0xEF as char && At(text, 1) == 0xBB as char && At(text, 2) == 0xBF as char then 3 else 0;
    var v := Value(text, start, 0, codec);
    return if v.None? then None else Some(v.value.0);
  }
}
