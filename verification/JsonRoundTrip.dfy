/** Parsing what the serializer prints gives the value back. */
module JsonRoundTrip {
  import opened Wrappers
  import opened JsonText

  // ------------------------------------------------------------- what must be assumed

  /** A byte that cannot continue a number. */
  predicate EndsNumber(c: char) {
    c == ',' || c == ']' || c == '}' || c == ' ' || c == '\t' || c == '\n' || c == 11 as char || c == 12 as char || c == '\r' || c == NUL
  }

  /** Printed numbers look like numbers and are read back when something follows that cannot continue them. */
  ghost predicate GoodCodec<N(!new)>(codec: Codec<N>) {
    && (forall n :: |codec.show(n)| > 0 && StartsNumber(codec.show(n)[0]))
    && (forall n, text, pos: nat | Matches(text, pos, codec.show(n)) && EndsNumber(At(text, pos + |codec.show(n)|)) ::
          codec.read(text, pos) == Some((n, |codec.show(n)|)))
  }

  /** Objects as the library builds them: names are C strings and occur once. */
  ghost predicate WellFormed<N>(v: Json<N>) {
    match v
    case Array(items) => forall i | 0 <= i < |items| :: WellFormed(items[i])
    case Object(members) =>
      && (forall i | 0 <= i < |members| :: NUL !in members[i].name && WellFormed(members[i].value))
      && (forall i, j | 0 <= i < j < |members| :: members[i].name != members[j].name)
    case _ => true
  }

  /** Arrays and objects nest at most `room` deep. */
  ghost predicate NestsWithin<N>(v: Json<N>, room: int) {
    && 0 <= room
    && match v
       case Array(items) => forall i | 0 <= i < |items| :: NestsWithin(items[i], room - 1)
       case Object(members) => forall i | 0 <= i < |members| :: NestsWithin(members[i].value, room - 1)
       case _ => true
  }

  // ----------------------------------------------------------------------- small steps

  /** Concatenation, for proofs that need only its length. */
  function Cat(a: string, b: string): (s: string)
    ensures |s| == |a| + |b|
  {
    a + b
  }

  lemma Regroup(a: string, b: string, z: string)
    ensures a + b + z == Cat(a, Cat(b, z))
  {}

  /** Five strings and what follows them. */
  lemma Regroup5(a: string, b: string, c: string, d: string, e: string, z: string)
    ensures Cat(a + b + c + d + e, z) == Cat(a, Cat(b, Cat(c, Cat(d, Cat(e, z)))))
  {
    Regroup(a + b + c + d, e, z);
    Regroup(a + b + c, d, Cat(e, z));
    Regroup(a + b, c, Cat(d, Cat(e, z)));
    Regroup(a, b, Cat(c, Cat(d, Cat(e, z))));
  }

  lemma Regroup4(a: string, b: string, c: string, d: string, z: string)
    ensures Cat(a + b + c + d, z) == Cat(a, Cat(b, Cat(c, Cat(d, z))))
  {
    Regroup(a + b + c, d, z);
    Regroup(a + b, c, Cat(d, z));
    Regroup(a, b, Cat(c, Cat(d, z)));
  }

  lemma MatchesSplit(text: string, pos: nat, a: string, b: string)
    requires Matches(text, pos, Cat(a, b))
    ensures Matches(text, pos, a) && Matches(text, pos + |a|, b) && pos + |a| + |b| <= |text|
  {
    assert text[pos..pos + |a|] == (a + b)[..|a|] == a;
    assert text[pos + |a|..pos + |a| + |b|] == (a + b)[|a|..] == b;
  }

  lemma MatchesAt(text: string, pos: nat, a: string, i: nat)
    requires Matches(text, pos, a) && i < |a|
    ensures At(text, pos + i) == a[i]
  {
    assert text[pos..pos + |a|][i] == a[i];
  }

  lemma {:induction false} IndentIsSpace(level: nat)
    ensures forall i | 0 <= i < |Indent(level)| :: IsSpace(Indent(level)[i])
  {
    if level > 0 {
      IndentIsSpace(level - 1);
    }
  }

  // --------------------------------------------------------------------------- strings

  /** The shape of an escaped byte. */
  lemma EscapeShape(c: char, slashes: bool)
    ensures var e := Escape(c, slashes);
            || (e == [c] && c != '\"' && c != '\\' && c >= 32 as char)
            || (|e| == 2 && e[0] == '\\' && e[1] != NUL && e[1] != 'u')
            || (|e| == 6 && e[..4] == "\\u00" && c < 32 as char && e[4] == HexDigit(c as nat / 16) && e[5] == HexDigit(c as nat % 16))
  {}

  lemma HexDigitPlain(d: nat)
    requires d < 16
    ensures HexDigit(d) != '\"' && HexDigit(d) != '\\' && HexDigit(d) != NUL && HexValue(HexDigit(d)) == d
  {}

  lemma SkipsEscape(text: string, pos: nat, c: char, slashes: bool)
    requires Matches(text, pos, Escape(c, slashes))
    ensures SkipQuotes(text, pos) == SkipQuotes(text, pos + |Escape(c, slashes)|)
  {
    var e := Escape(c, slashes);
    EscapeShape(c, slashes);
    forall i | 0 <= i < |e| ensures At(text, pos + i) == e[i] { MatchesAt(text, pos, e, i); }
    if |e| == 6 {
      HexDigitPlain(c as nat / 16);
      HexDigitPlain(c as nat % 16);
      hide HexDigit, HexValue, Escape;
      assert e[0] == e[..4][0] && e[1] == e[..4][1] && e[2] == e[..4][2] && e[3] == e[..4][3];
      assert SkipQuotes(text, pos) == SkipQuotes(text, pos + 2);
      assert SkipQuotes(text, pos + 2) == SkipQuotes(text, pos + 3);
      assert SkipQuotes(text, pos + 3) == SkipQuotes(text, pos + 4);
      assert SkipQuotes(text, pos + 4) == SkipQuotes(text, pos + 5);
    }
  }

  lemma {:induction false} SkipsEscapes(text: string, pos: nat, s: string, slashes: bool)
    requires Matches(text, pos, EscapeAll(s, slashes)) && At(text, pos + |EscapeAll(s, slashes)|) == '\"'
    ensures SkipQuotes(text, pos) == Some(pos + |EscapeAll(s, slashes)| + 1)
    decreases |s|
  {
    hide Escape, Matches;
    if s != "" {
      var e, rest := Escape(s[0], slashes), EscapeAll(s[1..], slashes);
      assert EscapeAll(s, slashes) == Cat(e, rest);
      MatchesSplit(text, pos, e, rest);
      SkipsEscape(text, pos, s[0], slashes);
      SkipsEscapes(text, pos + |e|, s[1..], slashes);
    }
  }

  lemma ProcessesEscape(text: string, pos: nat, end: nat, c: char, slashes: bool)
    requires Matches(text, pos, Escape(c, slashes)) && pos + |Escape(c, slashes)| <= end
    ensures ProcessString(text, pos, end) ==
            match ProcessString(text, pos + |Escape(c, slashes)|, end)
            case None => None
            case Some(rest) => Some([c] + rest)
  {
    var e := Escape(c, slashes);
    EscapeShape(c, slashes);
    forall i | 0 <= i < |e| ensures At(text, pos + i) == e[i] { MatchesAt(text, pos, e, i); }
    if |e| == 6 {
      assert e[0] == e[..4][0] && e[1] == e[..4][1] && e[2] == e[..4][2] && e[3] == e[..4][3];
      HexDigitPlain(c as nat / 16);
      HexDigitPlain(c as nat % 16);
      assert Hex4(text, pos + 2) == Some(c as nat) by {
        hide HexDigit, Escape;
        assert HexValue('0') == 0;
      }
      assert ParseUtf16(text, pos + 1) == Some(([c], pos + 5));
    }
  }

  lemma {:induction false} ProcessesEscapes(text: string, pos: nat, s: string, slashes: bool)
    requires Matches(text, pos, EscapeAll(s, slashes)) && At(text, pos + |EscapeAll(s, slashes)|) == '\"'
    ensures ProcessString(text, pos, pos + |EscapeAll(s, slashes)|) == Some(s)
    decreases |s|
  {
    hide Escape, Matches, At;
    if s != "" {
      var e, rest := Escape(s[0], slashes), EscapeAll(s[1..], slashes);
      assert EscapeAll(s, slashes) == Cat(e, rest);
      MatchesSplit(text, pos, e, rest);
      ProcessesEscape(text, pos, pos + |e| + |rest|, s[0], slashes);
      ProcessesEscapes(text, pos + |e|, s[1..], slashes);
      assert s == [s[0]] + s[1..];
    }
  }

  /** A printed string reads back as the string. */
  lemma QuotedParses(text: string, pos: nat, s: string, slashes: bool)
    requires Matches(text, pos, Quoted(s, slashes))
    ensures ParseQuoted(text, pos) == Some((s, pos + |Quoted(s, slashes)|))
  {
    hide EscapeAll, SkipQuotes, ProcessString, Matches;
    var inner := EscapeAll(s, slashes);
    assert Quoted(s, slashes) == Cat("\"", Cat(inner, "\""));
    MatchesSplit(text, pos, "\"", Cat(inner, "\""));
    MatchesSplit(text, pos + 1, inner, "\"");
    MatchesAt(text, pos, "\"", 0);
    MatchesAt(text, pos + 1 + |inner|, "\"", 0);
    SkipsEscapes(text, pos + 1, s, slashes);
    ProcessesEscapes(text, pos + 1, s, slashes);
  }

  // ---------------------------------------------------------------------------- values

  /** What a printed value starts with. */
  predicate StartsValue(c: char) {
    c == 'n' || c == 't' || c == 'f' || c == '\"' || c == '[' || c == '{' || StartsNumber(c)
  }

  lemma PrintStarts<N(!new)>(v: Json<N>, level: nat, style: Style, codec: Codec<N>)
    requires GoodCodec(codec)
    ensures |Print(v, level, style, codec)| > 0 && StartsValue(Print(v, level, style, codec)[0])
  {
    hide PrintItems, PrintMembers, Indent, EscapeAll;
  }

  /** The bytes that may follow a printed value inside printed text. */
  lemma EndsAreNotSpace(c: char)
    requires c == ',' || c == ']' || c == '}'
    ensures EndsNumber(c) && !IsSpace(c) && c != NUL
  {}

  lemma StartsAreNot(c: char)
    requires StartsValue(c)
    ensures !IsSpace(c) && c != NUL && c != ',' && c != ']' && c != '}'
  {}

  /** White space the pretty printer puts in. */
  predicate Blank(s: string) {
    forall i | 0 <= i < |s| :: IsSpace(s[i])
  }

  lemma MarginIsBlank(level: nat, style: Style)
    ensures Blank(Margin(level, style)) && Blank(Break(style)) && Blank(Break(style) + Margin(level, style))
  {
    IndentIsSpace(level);
  }

  /**
   * A printed value reads back as the value, wherever it stands in a text, as long as it does not
   * nest too deep and what follows cannot continue a number.
   */
  lemma {:induction false} ValueParses<N(!new)>(text: string, pos: nat, v: Json<N>, level: nat, style: Style, codec: Codec<N>, nesting: nat)
    requires GoodCodec(codec) && WellFormed(v) && NestsWithin(v, MAX_NESTING - nesting)
    requires Matches(text, pos, Print(v, level, style, codec))
    requires EndsNumber(At(text, pos + |Print(v, level, style, codec)|))
    ensures ParseValue(text, pos, nesting, codec) == Some((v, pos + |Print(v, level, style, codec)|))
    decreases v, 1, 0
  {
    hide EscapeAll, SkipQuotes, ProcessString, ParseItems, ParseMembers, PrintItems, PrintMembers, ParseQuoted;
    if !v.Array? && !v.Object? {
      ScalarParses(text, pos, v, level, style, codec, nesting);
    } else {
      hide Print, GoodCodec, WellFormed, Matches, SkipSpace;
      var s := Print(v, level, style, codec);
      PrintStarts(v, level, style, codec);
      MatchesFirst(text, pos, s);
      MatchesInside(text, pos, s);
      StartsAreNot(s[0]);
      SkipsNone(text, pos);
      BracketStarts(v, level, style, codec);
      if v.Array? {
        ArrayParses(text, pos, v, level, style, codec, nesting + 1);
      } else {
        ObjectParses(text, pos, v, level, style, codec, nesting + 1);
      }
    }
  }

  lemma BracketStarts<N(!new)>(v: Json<N>, level: nat, style: Style, codec: Codec<N>)
    ensures v.Array? ==> Print(v, level, style, codec)[0..1] == "["
    ensures v.Object? ==> Print(v, level, style, codec)[0..1] == "{"
  {
    hide PrintItems, PrintMembers, Margin, Break, Quoted;
  }

  lemma ScalarParses<N(!new)>(text: string, pos: nat, v: Json<N>, level: nat, style: Style, codec: Codec<N>, nesting: nat)
    requires !v.Array? && !v.Object? && GoodCodec(codec) && WellFormed(v) && nesting <= MAX_NESTING
    requires Matches(text, pos, Print(v, level, style, codec))
    requires EndsNumber(At(text, pos + |Print(v, level, style, codec)|))
    ensures ParseValue(text, pos, nesting, codec) == Some((v, pos + |Print(v, level, style, codec)|))
  {
    hide EscapeAll, SkipQuotes, ProcessString, ParseArray, ParseObject, PrintItems, PrintMembers, ParseQuoted, SkipSpace, Quoted, Matches;
    var s := Print(v, level, style, codec);
    PrintStarts(v, level, style, codec);
    MatchesFirst(text, pos, s);
    MatchesInside(text, pos, s);
    StartsAreNot(s[0]);
    SkipsNone(text, pos);
    match v
    case Null =>
    case Boolean(b) =>
      if !b {
        NotTrue(text, pos);
      }
    case Number(n) => assert Matches(text, pos, codec.show(n));
    case String(str) =>
      QuoteStarts(str, style.escapeSlashes);
      QuotedParses(text, pos, str, style.escapeSlashes);
  }

  lemma NotTrue(text: string, pos: nat)
    requires At(text, pos) == 'f'
    ensures !Matches(text, pos, "true")
  {
    if Matches(text, pos, "true") {
      MatchesFirst(text, pos, "true");
    }
  }

  lemma QuoteStarts(s: string, slashes: bool)
    ensures Quoted(s, slashes)[0..1] == "\""
  {}

  lemma MatchesInside(text: string, pos: nat, s: string)
    requires Matches(text, pos, s)
    ensures pos + |s| <= |text|
  {}

  lemma MatchesFirst(text: string, pos: nat, s: string)
    requires Matches(text, pos, s) && |s| > 0
    ensures At(text, pos) == s[0]
  {
    MatchesAt(text, pos, s, 0);
  }

  lemma SkipsNone(text: string, pos: nat)
    requires pos <= |text| && !IsSpace(At(text, pos))
    ensures SkipSpace(text, pos) == pos
  {}

  /** Skipping the white space `a` and then what is skipped from there on. */
  lemma {:induction false} SkipsTo(text: string, pos: nat, a: string, mid: nat, end: nat)
    requires Matches(text, pos, a) && Blank(a) && mid == pos + |a|
    requires SkipSpace(text, mid) == end
    ensures SkipSpace(text, pos) == end
    decreases |a|
  {
    if a != "" {
      MatchesAt(text, pos, a, 0);
      assert a == Cat(a[..1], a[1..]);
      MatchesSplit(text, pos, a[..1], a[1..]);
      SkipsTo(text, pos + 1, a[1..], mid, end);
    }
  }

  lemma EmptyPrints<N>(v: Json<N>, level: nat, style: Style, codec: Codec<N>)
    ensures v == Array([]) ==> Print(v, level, style, codec) == "[]"
    ensures v == Object([]) ==> Print(v, level, style, codec) == "{}"
  {}

  /** The end of a printed array or object. */
  function Closing(level: nat, style: Style, bracket: string): string {
    Cat(Margin(level, style), bracket)
  }

  /** After the last value of an array or object comes a byte that ends a number, then its bracket. */
  lemma ClosingFollows(text: string, end: nat, level: nat, style: Style, bracket: string)
    requires bracket == "]" || bracket == "}"
    requires Matches(text, end, Cat(Break(style), Closing(level, style, bracket)))
    ensures end <= |text| && EndsNumber(At(text, end))
    ensures var close := end + |Break(style)| + |Margin(level, style)|;
            SkipSpace(text, end) == close && At(text, close) == bracket[0]
  {
    MarginIsBlank(level, style);
    hide SkipSpace, Matches, Indent, Cat;
    var mid := end + |Break(style)|;
    var close := mid + |Margin(level, style)|;
    MatchesSplit(text, end, Break(style), Closing(level, style, bracket));
    MatchesSplit(text, mid, Margin(level, style), bracket);
    MatchesFirst(text, close, bracket);
    if style.pretty {
      MatchesFirst(text, end, Break(style));
    }
    SkipsNone(text, close);
    SkipsTo(text, mid, Margin(level, style), close, close);
    SkipsTo(text, end, Break(style), mid, close);
  }

  lemma BreakSkips(text: string, pos: nat, style: Style, next: nat)
    requires Matches(text, pos, Break(style)) && SkipSpace(text, pos + |Break(style)|) == next
    ensures SkipSpace(text, pos) == next
  {
    MarginIsBlank(0, style);
    SkipsTo(text, pos, Break(style), pos + |Break(style)|, next);
  }

  /** Something that starts like a value is at `pos`. */
  predicate ValueStarts(text: string, pos: nat) {
    pos < |text| && StartsValue(At(text, pos))
  }

  /** A printed value after white space and before something else. */
  lemma ValuePlace(text: string, p0: nat, blank: string, p: string, tail: string)
    requires Matches(text, p0, Cat(blank, Cat(p, tail))) && Blank(blank) && |p| > 0 && StartsValue(p[0])
    ensures SkipSpace(text, p0) == p0 + |blank| && ValueStarts(text, p0 + |blank|)
    ensures Matches(text, p0 + |blank|, p) && Matches(text, p0 + |blank| + |p|, tail) && p0 + |blank| + |p| <= |text|
  {
    hide SkipSpace, Matches, Cat, Blank, StartsValue;
    MatchesSplit(text, p0, blank, Cat(p, tail));
    MatchesSplit(text, p0 + |blank|, p, tail);
    MatchesFirst(text, p0 + |blank|, p);
    StartsAreNot(p[0]);
    SkipsNone(text, p0 + |blank|);
    SkipsTo(text, p0, blank, p0 + |blank|, p0 + |blank|);
  }

  lemma CommaFollows(text: string, end: nat, a: string, rest: string)
    requires Matches(text, end, Cat(",", Cat(a, rest)))
    ensures end < |text| && At(text, end) == ',' && EndsNumber(At(text, end)) && SkipSpace(text, end) == end
    ensures Matches(text, end + 1, a) && Matches(text, end + 1 + |a|, rest)
  {
    hide Matches, Cat;
    MatchesSplit(text, end, ",", Cat(a, rest));
    MatchesSplit(text, end + 1, a, rest);
    MatchesFirst(text, end, ",");
    EndsAreNotSpace(',');
  }

  // ---------------------------------------------------------------------------- arrays

  lemma ArrayPrints<N>(v: Json<N>, level: nat, style: Style, codec: Codec<N>)
    requires v.Array? && v.items != []
    ensures Print(v, level, style, codec)
         == Cat("[", Cat(Break(style), Cat(PrintItems(v, 0, level, style, codec), Closing(level, style, "]"))))
  {
    hide PrintItems, Margin, Break;
  }

  lemma LastItemPrints<N>(v: Json<N>, i: nat, level: nat, style: Style, codec: Codec<N>, closing: string)
    requires v.Array? && i == |v.items| - 1
    ensures Cat(PrintItems(v, i, level, style, codec), closing)
         == Cat(Margin(level + 1, style), Cat(Print(v.items[i], level + 1, style, codec), Cat(Break(style), closing)))
    ensures |PrintItems(v, i, level, style, codec)| == |Margin(level + 1, style)| + |Print(v.items[i], level + 1, style, codec)| + |Break(style)|
  {
    hide Print, Break, Margin;
    assert PrintItems(v, i + 1, level, style, codec) == "";
  }

  lemma NextItemPrints<N>(v: Json<N>, i: nat, level: nat, style: Style, codec: Codec<N>, closing: string)
    requires v.Array? && i < |v.items| - 1
    ensures Cat(PrintItems(v, i, level, style, codec), closing)
         == Cat(Margin(level + 1, style), Cat(Print(v.items[i], level + 1, style, codec),
              Cat(",", Cat(Break(style), Cat(PrintItems(v, i + 1, level, style, codec), closing)))))
    ensures |PrintItems(v, i, level, style, codec)| == |Margin(level + 1, style)| + |Print(v.items[i], level + 1, style, codec)|
              + 1 + |Break(style)| + |PrintItems(v, i + 1, level, style, codec)|
  {
    ItemStep(v, i, level, style, codec);
    Regroup5(Margin(level + 1, style), Print(v.items[i], level + 1, style, codec), ",", Break(style), PrintItems(v, i + 1, level, style, codec), closing);
    hide *;
  }

  lemma ItemStep<N>(v: Json<N>, i: nat, level: nat, style: Style, codec: Codec<N>)
    requires v.Array? && i < |v.items| - 1
    ensures PrintItems(v, i, level, style, codec)
         == Margin(level + 1, style) + Print(v.items[i], level + 1, style, codec) + "," + Break(style) + PrintItems(v, i + 1, level, style, codec)
  {
    hide Print, Break, Margin;
  }

  /** One round of the parser's loop, when no comma follows the value. */
  lemma LastItemRead<N>(text: string, start: nat, end: nat, close: nat, item: Json<N>, nesting: nat, codec: Codec<N>)
    requires ValueStarts(text, start) && ParseValue(text, start, nesting, codec) == Some((item, end))
    requires end <= |text| && SkipSpace(text, end) == close && At(text, close) != ','
    ensures ParseItems(text, start, nesting, codec) == Some(([item], close))
  {
    hide ParseValue, SkipSpace, StartsValue;
    StartsAreNot(At(text, start));
  }

  /** One round of the parser's loop, when a comma follows the value. */
  lemma NextItemRead<N>(text: string, start: nat, end: nat, next: nat, close: nat, item: Json<N>, rest: seq<Json<N>>, nesting: nat, codec: Codec<N>)
    requires ValueStarts(text, start) && ParseValue(text, start, nesting, codec) == Some((item, end))
    requires end < |text| && SkipSpace(text, end) == end && At(text, end) == ','
    requires SkipSpace(text, end + 1) == next && ValueStarts(text, next)
    requires ParseItems(text, next, nesting, codec) == Some((rest, close))
    ensures ParseItems(text, start, nesting, codec) == Some(([item] + rest, close))
  {
    hide ParseValue, SkipSpace, StartsValue;
    StartsAreNot(At(text, start));
    StartsAreNot(At(text, next));
  }

  lemma ChildFits<N>(v: Json<N>, i: nat, nesting: nat)
    requires v.Array? && i < |v.items| && WellFormed(v) && NestsWithin(v, MAX_NESTING - nesting + 1)
    ensures WellFormed(v.items[i]) && NestsWithin(v.items[i], MAX_NESTING - nesting)
  {}

  /** The items of a printed array from i on; returns where the first of them starts and where the array's bracket is. */
  lemma {:induction false} ItemsParse<N(!new)>(text: string, p0: nat, v: Json<N>, i: nat, level: nat, style: Style, codec: Codec<N>, nesting: nat)
    returns (start: nat, close: nat)
    requires v.Array? && i < |v.items| && GoodCodec(codec) && WellFormed(v) && NestsWithin(v, MAX_NESTING - nesting + 1)
    requires Matches(text, p0, Cat(PrintItems(v, i, level, style, codec), Closing(level, style, "]")))
    ensures SkipSpace(text, p0) == start && ValueStarts(text, start)
    ensures close == p0 + |PrintItems(v, i, level, style, codec)| + |Margin(level, style)| && At(text, close) == ']'
    ensures ParseItems(text, start, nesting, codec) == Some((v.items[i..], close))
    decreases v, 0, |v.items| - i
  {
    hide *;
    var item, closing, blank := v.items[i], Closing(level, style, "]"), Margin(level + 1, style);
    var p := Print(item, level + 1, style, codec);
    PrintStarts(item, level + 1, style, codec);
    MarginIsBlank(level + 1, style);
    ChildFits(v, i, nesting);
    start := p0 + |blank|;
    var end := start + |p|;
    if i == |v.items| - 1 {
      LastItemPrints(v, i, level, style, codec, closing);
      ValuePlace(text, p0, blank, p, Cat(Break(style), closing));
      ClosingFollows(text, end, level, style, "]");
      ValueParses(text, start, item, level + 1, style, codec, nesting);
      close := end + |Break(style)| + |Margin(level, style)|;
      LastItemRead(text, start, end, close, item, nesting, codec);
      assert v.items[i..] == [item];
    } else {
      var rest := Cat(PrintItems(v, i + 1, level, style, codec), closing);
      NextItemPrints(v, i, level, style, codec, closing);
      ValuePlace(text, p0, blank, p, Cat(",", Cat(Break(style), rest)));
      CommaFollows(text, end, Break(style), rest);
      ValueParses(text, start, item, level + 1, style, codec, nesting);
      var next;
      next, close := ItemsParse(text, end + 1 + |Break(style)|, v, i + 1, level, style, codec, nesting);
      BreakSkips(text, end + 1, style, next);
      NextItemRead(text, start, end, next, close, item, v.items[i + 1..], nesting, codec);
      assert v.items[i..] == [item] + v.items[i + 1..];
    }
  }

  lemma {:induction false} ArrayParses<N(!new)>(text: string, pos: nat, v: Json<N>, level: nat, style: Style, codec: Codec<N>, nesting: nat)
    requires v.Array? && GoodCodec(codec) && WellFormed(v) && NestsWithin(v, MAX_NESTING - nesting + 1)
    requires Matches(text, pos, Print(v, level, style, codec))
    ensures pos < |text| && ParseArray(text, pos, nesting, codec) == Some((v, pos + |Print(v, level, style, codec)|))
    decreases v, 0, |v.items| + 1
  {
    hide Print, ParseItems, PrintItems, Margin, Break, Matches, SkipSpace, Closing, Cat, GoodCodec, WellFormed, NestsWithin, StartsValue;
    MatchesInside(text, pos, Print(v, level, style, codec));
    if v.items == [] {
      EmptyPrints(v, level, style, codec);
      MatchesAt(text, pos, "[]", 1);
      SkipsNone(text, pos + 1);
    } else {
      var body := Cat(PrintItems(v, 0, level, style, codec), Closing(level, style, "]"));
      var p0 := pos + 1 + |Break(style)|;
      ArrayPrints(v, level, style, codec);
      ClosingLength(level, style, "]");
      MatchesSplit(text, pos, "[", Cat(Break(style), body));
      MatchesSplit(text, pos + 1, Break(style), body);
      var start, close := ItemsParse(text, p0, v, 0, level, style, codec, nesting);
      BreakSkips(text, pos + 1, style, start);
      StartsAreNot(At(text, start));
      SkipsNone(text, close);
      assert v.items[0..] == v.items;
    }
  }

  lemma ClosingLength(level: nat, style: Style, bracket: string)
    ensures |Closing(level, style, bracket)| == |Margin(level, style)| + |bracket|
  {}

  // ---------------------------------------------------------------------------- objects

  lemma ObjectPrints<N>(v: Json<N>, level: nat, style: Style, codec: Codec<N>)
    requires v.Object? && v.members != []
    ensures Print(v, level, style, codec)
         == Cat("{", Cat(Break(style), Cat(PrintMembers(v, 0, level, style, codec), Closing(level, style, "}"))))
  {
    hide PrintMembers, Margin, Break;
  }

  /** The space after the colon. */
  function Gap(style: Style): string {
    if style.pretty then " " else ""
  }

  lemma GapIsBlank(style: Style)
    ensures Blank(Gap(style))
  {}

  lemma LastMemberPrints<N>(v: Json<N>, i: nat, level: nat, style: Style, codec: Codec<N>, closing: string)
    requires v.Object? && i == |v.members| - 1
    ensures Cat(PrintMembers(v, i, level, style, codec), closing)
         == Cat(Margin(level + 1, style), Cat(Quoted(v.members[i].name, style.escapeSlashes), Cat(":", Cat(Gap(style),
              Cat(Print(v.members[i].value, level + 1, style, codec), Cat(Break(style), closing))))))
    ensures |PrintMembers(v, i, level, style, codec)| == |Margin(level + 1, style)| + |Quoted(v.members[i].name, style.escapeSlashes)|
              + 1 + |Gap(style)| + |Print(v.members[i].value, level + 1, style, codec)| + |Break(style)|
  {
    hide Print, Break, Margin, Quoted;
    assert PrintMembers(v, i + 1, level, style, codec) == "";
  }

  lemma NextMemberPrints<N>(v: Json<N>, i: nat, level: nat, style: Style, codec: Codec<N>, closing: string)
    requires v.Object? && i < |v.members| - 1
    ensures Cat(PrintMembers(v, i, level, style, codec), closing)
         == Cat(Margin(level + 1, style), Cat(Quoted(v.members[i].name, style.escapeSlashes), Cat(":", Cat(Gap(style),
              Cat(Print(v.members[i].value, level + 1, style, codec),
              Cat(",", Cat(Break(style), Cat(PrintMembers(v, i + 1, level, style, codec), closing))))))))
    ensures |PrintMembers(v, i, level, style, codec)| == |Margin(level + 1, style)| + |Quoted(v.members[i].name, style.escapeSlashes)|
              + 1 + |Gap(style)| + |Print(v.members[i].value, level + 1, style, codec)| + 1 + |Break(style)|
              + |PrintMembers(v, i + 1, level, style, codec)|
  {
    hide *;
    var a, q, g := Margin(level + 1, style), Quoted(v.members[i].name, style.escapeSlashes), Gap(style);
    var p, b, rest := Print(v.members[i].value, level + 1, style, codec), Break(style), PrintMembers(v, i + 1, level, style, codec);
    MemberStep(v, i, level, style, codec);
    Regroup5(a + q + ":" + g, p, ",", b, rest, closing);
    Regroup4(a, q, ":", g, Cat(p, Cat(",", Cat(b, Cat(rest, closing)))));
  }

  lemma MemberStep<N>(v: Json<N>, i: nat, level: nat, style: Style, codec: Codec<N>)
    requires v.Object? && i < |v.members| - 1
    ensures PrintMembers(v, i, level, style, codec)
         == Margin(level + 1, style) + Quoted(v.members[i].name, style.escapeSlashes) + ":" + Gap(style)
            + Print(v.members[i].value, level + 1, style, codec) + "," + Break(style) + PrintMembers(v, i + 1, level, style, codec)
  {
    hide Print, Break, Margin, Quoted;
  }

  /** The names of the first i members. */
  ghost function NamesBefore<N>(members: seq<Member<N>>, i: nat): (names: set<string>)
    requires i <= |members|
    ensures forall n :: n in names <==> exists j :: 0 <= j < i && members[j].name == n
  {
    if i == 0 then {} else NamesBefore(members, i - 1) + {members[i - 1].name}
  }

  lemma MemberFits<N>(v: Json<N>, i: nat, nesting: nat)
    requires v.Object? && i < |v.members| && WellFormed(v) && NestsWithin(v, MAX_NESTING - nesting + 1)
    ensures WellFormed(v.members[i].value) && NestsWithin(v.members[i].value, MAX_NESTING - nesting)
    ensures NUL !in v.members[i].name && v.members[i].name !in NamesBefore(v.members, i)
    ensures NamesBefore(v.members, i + 1) == NamesBefore(v.members, i) + {v.members[i].name}
  {}

  /** A member of this name starts at `start`; its name ends at `end` and its value starts at `value`. */
  ghost predicate MemberAt(text: string, start: nat, name: string, end: nat, value: nat) {
    && ValueStarts(text, start) && ParseQuoted(text, start) == Some((name, end))
    && end < |text| && SkipSpace(text, end) == end && At(text, end) == ':'
    && value < |text| && SkipSpace(text, end + 1) == value
  }

  lemma QuotedStarts(s: string, slashes: bool)
    ensures |Quoted(s, slashes)| > 0 && StartsValue(Quoted(s, slashes)[0]) && !IsSpace(':')
  {}

  /** A printed name after white space, the colon and the gap after it, and the value. */
  lemma NamePlace(text: string, p0: nat, blank: string, name: string, slashes: bool, gap: string, p: string, tail: string)
    requires Blank(blank) && Blank(gap) && |p| > 0 && StartsValue(p[0])
    requires Matches(text, p0, Cat(blank, Cat(Quoted(name, slashes), Cat(":", Cat(gap, Cat(p, tail))))))
    ensures var start, value := p0 + |blank|, p0 + |blank| + |Quoted(name, slashes)| + 1 + |gap|;
            && SkipSpace(text, p0) == start && ValueStarts(text, start) && MemberAt(text, start, name, start + |Quoted(name, slashes)|, value)
            && Matches(text, value, p) && Matches(text, value + |p|, tail) && value + |p| <= |text|
  {
    var q, start := Quoted(name, slashes), p0 + |blank|;
    QuotedStarts(name, slashes);
    hide Quoted, Matches, StartsValue, SkipSpace, Blank, ParseQuoted, Cat, IsSpace;
    var after := Cat(gap, Cat(p, tail));
    ValuePlace(text, p0, blank, q, Cat(":", after));
    QuotedParses(text, start, name, slashes);
    MatchesSplit(text, start + |q|, ":", after);
    MatchesFirst(text, start + |q|, ":");
    SkipsNone(text, start + |q|);
    ValuePlace(text, start + |q| + 1, gap, p, tail);
  }

  /** Leading white space makes no difference to a value. */
  lemma ValueAfterSpace<N>(text: string, pos: nat, value: nat, nesting: nat, codec: Codec<N>)
    requires pos <= value <= |text| && SkipSpace(text, pos) == value
    ensures ParseValue(text, pos, nesting, codec) == ParseValue(text, value, nesting, codec)
  {
    SkipStops(text, pos);
    hide ParseArray, ParseObject, ParseQuoted, SkipSpace, Matches;
  }

  lemma {:induction false} SkipStops(text: string, pos: nat)
    requires pos <= |text|
    ensures SkipSpace(text, SkipSpace(text, pos)) == SkipSpace(text, pos)
    decreases |text| - pos
  {
    if IsSpace(At(text, pos)) {
      SkipStops(text, pos + 1);
    }
  }

  /** One round of the parser's loop, when no comma follows the member. */
  lemma LastMemberRead<N>(text: string, start: nat, end: nat, value: nat, after: nat, close: nat, m: Member<N>, nesting: nat,
                          codec: Codec<N>, names: set<string>)
    requires MemberAt(text, start, m.name, end, value) && NUL !in m.name && m.name !in names
    requires ParseValue(text, value, nesting, codec) == Some((m.value, after))
    requires after <= |text| && SkipSpace(text, after) == close && At(text, close) != ','
    ensures ParseMembers(text, start, nesting, codec, names) == Some(([m], close))
  {
    hide ParseValue, SkipSpace, ParseQuoted, StartsValue;
    ValueAfterSpace(text, end + 1, value, nesting, codec);
    StartsAreNot(At(text, start));
  }

  /** One round of the parser's loop, when a comma follows the member. */
  lemma NextMemberRead<N>(text: string, start: nat, end: nat, value: nat, after: nat, next: nat, close: nat, m: Member<N>,
                          rest: seq<Member<N>>, nesting: nat, codec: Codec<N>, names: set<string>)
    requires MemberAt(text, start, m.name, end, value) && NUL !in m.name && m.name !in names
    requires ParseValue(text, value, nesting, codec) == Some((m.value, after))
    requires after < |text| && SkipSpace(text, after) == after && At(text, after) == ','
    requires SkipSpace(text, after + 1) == next && ValueStarts(text, next)
    requires ParseMembers(text, next, nesting, codec, names + {m.name}) == Some((rest, close))
    ensures ParseMembers(text, start, nesting, codec, names) == Some(([m] + rest, close))
  {
    hide ParseValue, SkipSpace, ParseQuoted, StartsValue;
    ValueAfterSpace(text, end + 1, value, nesting, codec);
    StartsAreNot(At(text, start));
    StartsAreNot(At(text, next));
  }

  /** The members of a printed object from i on; returns where the first of them starts and where the object's bracket is. */
  lemma {:induction false} MembersParse<N(!new)>(text: string, p0: nat, v: Json<N>, i: nat, level: nat, style: Style, codec: Codec<N>, nesting: nat)
    returns (start: nat, close: nat)
    requires v.Object? && i < |v.members| && GoodCodec(codec) && WellFormed(v) && NestsWithin(v, MAX_NESTING - nesting + 1)
    requires Matches(text, p0, Cat(PrintMembers(v, i, level, style, codec), Closing(level, style, "}")))
    ensures SkipSpace(text, p0) == start && ValueStarts(text, start)
    ensures close == p0 + |PrintMembers(v, i, level, style, codec)| + |Margin(level, style)| && At(text, close) == '}'
    ensures ParseMembers(text, start, nesting, codec, NamesBefore(v.members, i)) == Some((v.members[i..], close))
    decreases v, 0, |v.members| - i
  {
    hide *;
    var m, closing, blank, gap := v.members[i], Closing(level, style, "}"), Margin(level + 1, style), Gap(style);
    var p, q := Print(m.value, level + 1, style, codec), Quoted(m.name, style.escapeSlashes);
    PrintStarts(m.value, level + 1, style, codec);
    MarginIsBlank(level + 1, style);
    GapIsBlank(style);
    MemberFits(v, i, nesting);
    start := p0 + |blank|;
    var end := start + |q|;
    var value := end + 1 + |gap|;
    var after := value + |p|;
    if i == |v.members| - 1 {
      LastMemberPrints(v, i, level, style, codec, closing);
      NamePlace(text, p0, blank, m.name, style.escapeSlashes, gap, p, Cat(Break(style), closing));
      ClosingFollows(text, after, level, style, "}");
      ValueParses(text, value, m.value, level + 1, style, codec, nesting);
      close := after + |Break(style)| + |Margin(level, style)|;
      LastMemberRead(text, start, end, value, after, close, m, nesting, codec, NamesBefore(v.members, i));
      assert v.members[i..] == [m];
    } else {
      var rest := Cat(PrintMembers(v, i + 1, level, style, codec), closing);
      NextMemberPrints(v, i, level, style, codec, closing);
      NamePlace(text, p0, blank, m.name, style.escapeSlashes, gap, p, Cat(",", Cat(Break(style), rest)));
      CommaFollows(text, after, Break(style), rest);
      ValueParses(text, value, m.value, level + 1, style, codec, nesting);
      var next;
      next, close := MembersParse(text, after + 1 + |Break(style)|, v, i + 1, level, style, codec, nesting);
      BreakSkips(text, after + 1, style, next);
      NextMemberRead(text, start, end, value, after, next, close, m, v.members[i + 1..], nesting, codec, NamesBefore(v.members, i));
      assert v.members[i..] == [m] + v.members[i + 1..];
    }
  }

  lemma {:induction false} ObjectParses<N(!new)>(text: string, pos: nat, v: Json<N>, level: nat, style: Style, codec: Codec<N>, nesting: nat)
    requires v.Object? && GoodCodec(codec) && WellFormed(v) && NestsWithin(v, MAX_NESTING - nesting + 1)
    requires Matches(text, pos, Print(v, level, style, codec))
    ensures pos < |text| && ParseObject(text, pos, nesting, codec) == Some((v, pos + |Print(v, level, style, codec)|))
    decreases v, 0, |v.members| + 1
  {
    hide Print, ParseMembers, PrintMembers, Margin, Break, Matches, SkipSpace, Closing, Cat, GoodCodec, WellFormed, NestsWithin, StartsValue;
    MatchesInside(text, pos, Print(v, level, style, codec));
    if v.members == [] {
      EmptyPrints(v, level, style, codec);
      MatchesAt(text, pos, "{}", 1);
      SkipsNone(text, pos + 1);
    } else {
      var body := Cat(PrintMembers(v, 0, level, style, codec), Closing(level, style, "}"));
      var p0 := pos + 1 + |Break(style)|;
      ObjectPrints(v, level, style, codec);
      ClosingLength(level, style, "}");
      MatchesSplit(text, pos, "{", Cat(Break(style), body));
      MatchesSplit(text, pos + 1, Break(style), body);
      var start, close := MembersParse(text, p0, v, 0, level, style, codec, nesting);
      BreakSkips(text, pos + 1, style, start);
      StartsAreNot(At(text, start));
      SkipsNone(text, close);
      assert v.members[0..] == v.members;
    }
  }

  // ---------------------------------------------------------------- nesting too deep

  lemma DeepItem<N>(text: string, start: nat, nesting: nat, codec: Codec<N>)
    requires ValueStarts(text, start) && ParseValue(text, start, nesting, codec) == None
    ensures ParseItems(text, start, nesting, codec) == None
  {
    hide ParseValue, StartsValue;
    StartsAreNot(At(text, start));
  }

  lemma DeepLaterItem<N>(text: string, start: nat, end: nat, next: nat, item: Json<N>, nesting: nat, codec: Codec<N>)
    requires ValueStarts(text, start) && ParseValue(text, start, nesting, codec) == Some((item, end))
    requires end < |text| && SkipSpace(text, end) == end && At(text, end) == ','
    requires SkipSpace(text, end + 1) == next && ValueStarts(text, next) && ParseItems(text, next, nesting, codec) == None
    ensures ParseItems(text, start, nesting, codec) == None
  {
    hide ParseValue, SkipSpace, StartsValue;
    StartsAreNot(At(text, start));
    StartsAreNot(At(text, next));
  }

  lemma DeepMember<N>(text: string, start: nat, end: nat, value: nat, name: string, nesting: nat, codec: Codec<N>, names: set<string>)
    requires MemberAt(text, start, name, end, value) && ParseValue(text, value, nesting, codec) == None
    ensures ParseMembers(text, start, nesting, codec, names) == None
  {
    hide ParseValue, SkipSpace, ParseQuoted, StartsValue;
    ValueAfterSpace(text, end + 1, value, nesting, codec);
    StartsAreNot(At(text, start));
  }

  lemma DeepLaterMember<N>(text: string, start: nat, end: nat, value: nat, after: nat, next: nat, m: Member<N>,
                           nesting: nat, codec: Codec<N>, names: set<string>)
    requires MemberAt(text, start, m.name, end, value) && NUL !in m.name && m.name !in names
    requires ParseValue(text, value, nesting, codec) == Some((m.value, after))
    requires after < |text| && SkipSpace(text, after) == after && At(text, after) == ','
    requires SkipSpace(text, after + 1) == next && ValueStarts(text, next)
    requires ParseMembers(text, next, nesting, codec, names + {m.name}) == None
    ensures ParseMembers(text, start, nesting, codec, names) == None
  {
    hide ParseValue, SkipSpace, ParseQuoted, StartsValue;
    ValueAfterSpace(text, end + 1, value, nesting, codec);
    StartsAreNot(At(text, start));
    StartsAreNot(At(text, next));
  }

  lemma ItemWellFormed<N>(v: Json<N>, i: nat)
    requires v.Array? && i < |v.items| && WellFormed(v)
    ensures WellFormed(v.items[i])
  {}

  lemma MemberWellFormed<N>(v: Json<N>, i: nat)
    requires v.Object? && i < |v.members| && WellFormed(v)
    ensures WellFormed(v.members[i].value)
    ensures NUL !in v.members[i].name && v.members[i].name !in NamesBefore(v.members, i)
    ensures NamesBefore(v.members, i + 1) == NamesBefore(v.members, i) + {v.members[i].name}
  {}

  /** A printed array in which item k, from i on, nests too deep does not parse. */
  lemma {:induction false} ItemsTooDeep<N(!new)>(text: string, p0: nat, v: Json<N>, i: nat, k: nat, level: nat, style: Style, codec: Codec<N>, nesting: nat)
    returns (start: nat)
    requires v.Array? && i <= k < |v.items| && GoodCodec(codec) && WellFormed(v) && !NestsWithin(v.items[k], MAX_NESTING - nesting)
    requires Matches(text, p0, Cat(PrintItems(v, i, level, style, codec), Closing(level, style, "]")))
    ensures SkipSpace(text, p0) == start && ValueStarts(text, start)
    ensures ParseItems(text, start, nesting, codec) == None
    decreases v, 0, |v.items| - i
  {
    hide *;
    var item, closing, blank := v.items[i], Closing(level, style, "]"), Margin(level + 1, style);
    var p := Print(item, level + 1, style, codec);
    PrintStarts(item, level + 1, style, codec);
    MarginIsBlank(level + 1, style);
    ItemWellFormed(v, i);
    start := p0 + |blank|;
    var end := start + |p|;
    if i == |v.items| - 1 {
      LastItemPrints(v, i, level, style, codec, closing);
      ValuePlace(text, p0, blank, p, Cat(Break(style), closing));
      ClosingFollows(text, end, level, style, "]");
      ValueTooDeep(text, start, item, level + 1, style, codec, nesting);
      DeepItem(text, start, nesting, codec);
    } else {
      var rest := Cat(PrintItems(v, i + 1, level, style, codec), closing);
      NextItemPrints(v, i, level, style, codec, closing);
      ValuePlace(text, p0, blank, p, Cat(",", Cat(Break(style), rest)));
      CommaFollows(text, end, Break(style), rest);
      if NestsWithin(item, MAX_NESTING - nesting) {
        ValueParses(text, start, item, level + 1, style, codec, nesting);
        var next := ItemsTooDeep(text, end + 1 + |Break(style)|, v, i + 1, k, level, style, codec, nesting);
        BreakSkips(text, end + 1, style, next);
        DeepLaterItem(text, start, end, next, item, nesting, codec);
      } else {
        ValueTooDeep(text, start, item, level + 1, style, codec, nesting);
        DeepItem(text, start, nesting, codec);
      }
    }
  }

  /** A printed object in which member k, from i on, nests too deep does not parse. */
  lemma {:induction false} MembersTooDeep<N(!new)>(text: string, p0: nat, v: Json<N>, i: nat, k: nat, level: nat, style: Style, codec: Codec<N>, nesting: nat)
    returns (start: nat)
    requires v.Object? && i <= k < |v.members| && GoodCodec(codec) && WellFormed(v) && !NestsWithin(v.members[k].value, MAX_NESTING - nesting)
    requires Matches(text, p0, Cat(PrintMembers(v, i, level, style, codec), Closing(level, style, "}")))
    ensures SkipSpace(text, p0) == start && ValueStarts(text, start)
    ensures ParseMembers(text, start, nesting, codec, NamesBefore(v.members, i)) == None
    decreases v, 0, |v.members| - i
  {
    hide *;
    var m, closing, blank, gap := v.members[i], Closing(level, style, "}"), Margin(level + 1, style), Gap(style);
    var p, q := Print(m.value, level + 1, style, codec), Quoted(m.name, style.escapeSlashes);
    PrintStarts(m.value, level + 1, style, codec);
    MarginIsBlank(level + 1, style);
    GapIsBlank(style);
    MemberWellFormed(v, i);
    start := p0 + |blank|;
    var end := start + |q|;
    var value := end + 1 + |gap|;
    var after := value + |p|;
    if i == |v.members| - 1 {
      LastMemberPrints(v, i, level, style, codec, closing);
      NamePlace(text, p0, blank, m.name, style.escapeSlashes, gap, p, Cat(Break(style), closing));
      ClosingFollows(text, after, level, style, "}");
      ValueTooDeep(text, value, m.value, level + 1, style, codec, nesting);
      DeepMember(text, start, end, value, m.name, nesting, codec, NamesBefore(v.members, i));
    } else {
      var rest := Cat(PrintMembers(v, i + 1, level, style, codec), closing);
      NextMemberPrints(v, i, level, style, codec, closing);
      NamePlace(text, p0, blank, m.name, style.escapeSlashes, gap, p, Cat(",", Cat(Break(style), rest)));
      CommaFollows(text, after, Break(style), rest);
      if NestsWithin(m.value, MAX_NESTING - nesting) {
        ValueParses(text, value, m.value, level + 1, style, codec, nesting);
        var next := MembersTooDeep(text, after + 1 + |Break(style)|, v, i + 1, k, level, style, codec, nesting);
        BreakSkips(text, after + 1, style, next);
        DeepLaterMember(text, start, end, value, after, next, m, nesting, codec, NamesBefore(v.members, i));
      } else {
        ValueTooDeep(text, value, m.value, level + 1, style, codec, nesting);
        DeepMember(text, start, end, value, m.name, nesting, codec, NamesBefore(v.members, i));
      }
    }
  }

  /** The failing half: a printed value that nests deeper than the parser allows does not parse. */
  lemma {:induction false} ValueTooDeep<N(!new)>(text: string, pos: nat, v: Json<N>, level: nat, style: Style, codec: Codec<N>, nesting: nat)
    requires GoodCodec(codec) && WellFormed(v) && !NestsWithin(v, MAX_NESTING - nesting)
    requires Matches(text, pos, Print(v, level, style, codec))
    requires EndsNumber(At(text, pos + |Print(v, level, style, codec)|))
    ensures ParseValue(text, pos, nesting, codec) == None
    decreases v, 1, 0
  {
    hide EscapeAll, SkipQuotes, ProcessString, ParseArray, ParseObject, PrintItems, PrintMembers, ParseQuoted, WellFormed, GoodCodec, SkipSpace, Matches, Print;
    var s := Print(v, level, style, codec);
    MatchesInside(text, pos, s);
    PrintStarts(v, level, style, codec);
    MatchesFirst(text, pos, s);
    StartsAreNot(s[0]);
    SkipsNone(text, pos);
    BracketStarts(v, level, style, codec);
    if nesting <= MAX_NESTING {
      if v.Array? {
        ArrayTooDeep(text, pos, v, level, style, codec, nesting);
      } else {
        ObjectTooDeep(text, pos, v, level, style, codec, nesting);
      }
    }
  }

  lemma {:induction false} ArrayTooDeep<N(!new)>(text: string, pos: nat, v: Json<N>, level: nat, style: Style, codec: Codec<N>, nesting: nat)
    requires v.Array? && GoodCodec(codec) && WellFormed(v) && !NestsWithin(v, MAX_NESTING - nesting) && nesting <= MAX_NESTING
    requires pos < |text| && Matches(text, pos, Print(v, level, style, codec))
    ensures ParseArray(text, pos, nesting + 1, codec) == None
    decreases v, 0, |v.items| + 1
  {
    hide Print, ParseItems, PrintItems, Cat, Closing, Margin, Break, WellFormed, GoodCodec, SkipSpace, Matches;
    var k :| 0 <= k < |v.items| && !NestsWithin(v.items[k], MAX_NESTING - nesting - 1);
    var body := Cat(PrintItems(v, 0, level, style, codec), Closing(level, style, "]"));
    ArrayPrints(v, level, style, codec);
    MatchesSplit(text, pos, "[", Cat(Break(style), body));
    MatchesSplit(text, pos + 1, Break(style), body);
    var start := ItemsTooDeep(text, pos + 1 + |Break(style)|, v, 0, k, level, style, codec, nesting + 1);
    BreakSkips(text, pos + 1, style, start);
    StartsAreNot(At(text, start));
  }

  lemma {:induction false} ObjectTooDeep<N(!new)>(text: string, pos: nat, v: Json<N>, level: nat, style: Style, codec: Codec<N>, nesting: nat)
    requires v.Object? && GoodCodec(codec) && WellFormed(v) && !NestsWithin(v, MAX_NESTING - nesting) && nesting <= MAX_NESTING
    requires pos < |text| && Matches(text, pos, Print(v, level, style, codec))
    ensures ParseObject(text, pos, nesting + 1, codec) == None
    decreases v, 0, |v.members| + 1
  {
    hide Print, ParseMembers, PrintMembers, Cat, Closing, Margin, Break, WellFormed, GoodCodec, SkipSpace, Matches;
    var k :| 0 <= k < |v.members| && !NestsWithin(v.members[k].value, MAX_NESTING - nesting - 1);
    var body := Cat(PrintMembers(v, 0, level, style, codec), Closing(level, style, "}"));
    ObjectPrints(v, level, style, codec);
    MatchesSplit(text, pos, "{", Cat(Break(style), body));
    MatchesSplit(text, pos + 1, Break(style), body);
    var start := MembersTooDeep(text, pos + 1 + |Break(style)|, v, 0, k, level, style, codec, nesting + 1);
    BreakSkips(text, pos + 1, style, start);
    StartsAreNot(At(text, start));
  }

  /**
   * json_parse_string undoes json_serialize_to_string and its pretty variant exactly for the
   * values that nest no deeper than the parser allows; deeper ones do not parse.
   */
  lemma RoundTrip<N(!new)>(v: Json<N>, style: Style, codec: Codec<N>)
    requires GoodCodec(codec) && WellFormed(v)
    ensures ParseText(Print(v, 0, style, codec), codec) == if NestsWithin(v, 2048) then Some(v) else None
  {
    hide Print, ParseValue, GoodCodec, WellFormed, NestsWithin;
    var text := Print(v, 0, style, codec);
    PrintStarts(v, 0, style, codec);
    assert Matches(text, 0, text);
    if NestsWithin(v, MAX_NESTING) {
      ValueParses(text, 0, v, 0, style, codec, 0);
    } else {
      ValueTooDeep(text, 0, v, 0, style, codec, 0);
    }
  }
}
