/** White space in JSON texts: wherever the grammar allows it, it makes no difference to what is parsed. */
module JsonSpacing {
  import opened Wrappers
  import opened JsonText
  import opened JsonRoundTrip

  /** White space (RFC 8259, section 2). */
  predicate White(c: char) {
    c == 0x20 as char || c == 0x09 as char || c == 0x0A as char || c == 0x0D as char
  }

  predicate Whites(s: string) {
    forall i | 0 <= i < |s| :: White(s[i])
  }

  // --------------------------------------------------------------------- tokens of a value

  /** The tokens that are printed for a value. */
  function Tokens<N>(v: Json<N>, slashes: bool, codec: Codec<N>): (tokens: seq<string>)
    ensures |tokens| > 0
    decreases v, 1, 0
  {
    match v
    case Array(items) => ["["] + (if items == [] then [] else ItemTokens(v, 0, slashes, codec)) + ["]"]
    case Object(members) => ["{"] + (if members == [] then [] else MemberTokens(v, 0, slashes, codec)) + ["}"]
    case _ => [Print(v, 0, Style(false, slashes), codec)]
  }

  /** Those of the items from i on. */
  function ItemTokens<N>(v: Json<N>, i: nat, slashes: bool, codec: Codec<N>): seq<string>
    requires v.Array? && i < |v.items|
    decreases v, 0, |v.items| - i
  {
    Tokens(v.items[i], slashes, codec) + if i + 1 == |v.items| then [] else [","] + ItemTokens(v, i + 1, slashes, codec)
  }

  /** Those of the members from i on. */
  function MemberTokens<N>(v: Json<N>, i: nat, slashes: bool, codec: Codec<N>): seq<string>
    requires v.Object? && i < |v.members|
    decreases v, 0, |v.members| - i
  {
    [Quoted(v.members[i].name, slashes), ":"] + Tokens(v.members[i].value, slashes, codec)
    + if i + 1 == |v.members| then [] else [","] + MemberTokens(v, i + 1, slashes, codec)
  }

  /** Tokens with something before, between and behind them. */
  function Weave(gaps: seq<string>, tokens: seq<string>): string
    requires |gaps| == |tokens| + 1
  {
    if tokens == [] then gaps[0] else Cat(gaps[0], Cat(tokens[0], Weave(gaps[1..], tokens[1..])))
  }

  /** Tokens begin with what is no white space. */
  predicate Visible(token: string) {
    token != "" && !IsSpace(token[0]) && token[0] != NUL
  }

  predicate AllVisible(tokens: seq<string>) {
    forall i | 0 <= i < |tokens| :: Visible(tokens[i])
  }

  lemma {:induction false} TokensVisible<N(!new)>(v: Json<N>, slashes: bool, codec: Codec<N>)
    requires GoodCodec(codec)
    ensures AllVisible(Tokens(v, slashes, codec))
    decreases v, 1, 0
  {
    hide Print, GoodCodec, Visible, ItemTokens, MemberTokens;
    BracketsVisible();
    match v
    case Array(items) =>
      if items != [] {
        ItemTokensVisible(v, 0, slashes, codec);
      }
    case Object(members) =>
      if members != [] {
        MemberTokensVisible(v, 0, slashes, codec);
      }
    case _ => PrintVisible(v, slashes, codec);
  }

  lemma BracketsVisible()
    ensures Visible("[") && Visible("]") && Visible("{") && Visible("}") && Visible(",") && Visible(":")
  {}

  lemma PrintVisible<N(!new)>(v: Json<N>, slashes: bool, codec: Codec<N>)
    requires GoodCodec(codec)
    ensures Visible(Print(v, 0, Style(false, slashes), codec))
  {
    hide Print, GoodCodec, StartsValue;
    var s := Print(v, 0, Style(false, slashes), codec);
    PrintStarts(v, 0, Style(false, slashes), codec);
    StartsAreNot(s[0]);
  }

  lemma NameVisible(s: string, slashes: bool)
    ensures Visible(Quoted(s, slashes))
  {
    hide Quoted, StartsValue;
    QuotedStarts(s, slashes);
    StartsAreNot(Quoted(s, slashes)[0]);
  }

  lemma {:induction false} ItemTokensVisible<N(!new)>(v: Json<N>, i: nat, slashes: bool, codec: Codec<N>)
    requires v.Array? && i < |v.items| && GoodCodec(codec)
    ensures AllVisible(ItemTokens(v, i, slashes, codec))
    decreases v, 0, |v.items| - i
  {
    hide GoodCodec, Visible, Tokens;
    BracketsVisible();
    TokensVisible(v.items[i], slashes, codec);
    if i + 1 < |v.items| {
      ItemTokensVisible(v, i + 1, slashes, codec);
    }
  }

  lemma {:induction false} MemberTokensVisible<N(!new)>(v: Json<N>, i: nat, slashes: bool, codec: Codec<N>)
    requires v.Object? && i < |v.members| && GoodCodec(codec)
    ensures AllVisible(MemberTokens(v, i, slashes, codec))
    decreases v, 0, |v.members| - i
  {
    hide GoodCodec, Visible, Tokens, Quoted;
    BracketsVisible();
    NameVisible(v.members[i].name, slashes);
    TokensVisible(v.members[i].value, slashes, codec);
    if i + 1 < |v.members| {
      MemberTokensVisible(v, i + 1, slashes, codec);
    }
  }

  // ------------------------------------------------------------------- tokens in a text

  /** From pos on the text has these tokens, each behind whatever the parser skips. */
  predicate Laid(text: string, pos: nat, tokens: seq<string>)
    decreases |tokens|
  {
    && pos <= |text|
    && (tokens == [] || (Matches(text, SkipSpace(text, pos), tokens[0]) && Laid(text, SkipSpace(text, pos) + |tokens[0]|, tokens[1..])))
  }

  /** Where the last of them ends. */
  function End(text: string, pos: nat, tokens: seq<string>): (end: nat)
    requires Laid(text, pos, tokens)
    ensures pos <= end <= |text|
    decreases |tokens|
  {
    if tokens == [] then pos else End(text, SkipSpace(text, pos) + |tokens[0]|, tokens[1..])
  }

  /** Some tokens and then others. */
  lemma {:induction false} LaidSplits(text: string, pos: nat, a: seq<string>, b: seq<string>)
    requires Laid(text, pos, a + b)
    ensures Laid(text, pos, a) && Laid(text, End(text, pos, a), b) && End(text, End(text, pos, a), b) == End(text, pos, a + b)
    decreases |a|
  {
    hide Matches, SkipSpace;
    if a == [] {
      assert a + b == b;
    } else {
      assert (a + b)[1..] == a[1..] + b;
      LaidSplits(text, SkipSpace(text, pos) + |a[0]|, a[1..], b);
    }
  }

  /** White space is skipped. */
  lemma {:induction false} WhiteSkipped(text: string, pos: nat, gap: string)
    requires Matches(text, pos, gap) && Whites(gap) && pos + |gap| <= |text|
    ensures SkipSpace(text, pos) == SkipSpace(text, pos + |gap|)
    decreases |gap|
  {
    hide Matches;
    if gap != "" {
      MatchesAt(text, pos, gap, 0);
      WhiteIsSpace(gap[0]);
      assert gap == Cat(gap[..1], gap[1..]);
      MatchesSplit(text, pos, gap[..1], gap[1..]);
      WhiteSkipped(text, pos + 1, gap[1..]);
    }
  }

  /** The parser skips what isspace of the C locale holds: white space, and vertical tabs and form feeds. */
  lemma SpacesAre(c: char)
    ensures IsSpace(c) <==> White(c) || c == 0x0B as char || c == 0x0C as char
  {}

  lemma WhiteIsSpace(c: char)
    requires White(c)
    ensures IsSpace(c)
  {}

  /** In a woven text the tokens are laid, and behind the last of them is the last gap. */
  lemma {:induction false} WovenIsLaid(text: string, pos: nat, gaps: seq<string>, tokens: seq<string>)
    requires |gaps| == |tokens| + 1 && (forall i | 0 <= i < |gaps| :: Whites(gaps[i])) && AllVisible(tokens)
    requires Matches(text, pos, Weave(gaps, tokens))
    ensures Laid(text, pos, tokens) && Matches(text, End(text, pos, tokens), gaps[|tokens|])
    ensures End(text, pos, tokens) + |gaps[|tokens|]| == pos + |Weave(gaps, tokens)|
    decreases |tokens|
  {
    hide Matches, SkipSpace, Whites, IsSpace;
    MatchesInside(text, pos, Weave(gaps, tokens));
    if tokens != [] {
      var token, rest := tokens[0], Weave(gaps[1..], tokens[1..]);
      MatchesSplit(text, pos, gaps[0], Cat(token, rest));
      MatchesSplit(text, pos + |gaps[0]|, token, rest);
      assert Visible(token);
      MatchesFirst(text, pos + |gaps[0]|, token);
      WhiteSkipped(text, pos, gaps[0]);
      SkipsNone(text, pos + |gaps[0]|);
      WovenIsLaid(text, pos + |gaps[0]| + |token|, gaps[1..], tokens[1..]);
    }
  }

  // ----------------------------------------------------------------------------- parsing

  /** What may follow a value ends a number. */
  lemma SpaceEndsNumber(c: char)
    requires IsSpace(c)
    ensures EndsNumber(c)
  {}

  lemma BeforeBracket(text: string, pos: nat, tokens: seq<string>)
    requires Laid(text, pos, tokens) && tokens != [] && (tokens[0] == "," || tokens[0] == "]" || tokens[0] == "}")
    ensures EndsNumber(At(text, pos))
    ensures At(text, SkipSpace(text, pos)) == tokens[0][0] && SkipSpace(text, pos) < |text|
  {
    hide Matches, IsSpace;
    var q := SkipSpace(text, pos);
    MatchesFirst(text, q, tokens[0]);
    MatchesInside(text, q, tokens[0]);
    if q == pos {
      EndsAreNotSpace(tokens[0][0]);
    } else {
      SpaceEndsNumber(At(text, pos));
    }
  }

  /** The first token of a value starts it. */
  lemma TokensStart<N(!new)>(v: Json<N>, slashes: bool, codec: Codec<N>)
    requires GoodCodec(codec)
    ensures Tokens(v, slashes, codec)[0] != "" && StartsValue(Tokens(v, slashes, codec)[0][0])
  {
    hide Print, GoodCodec, ItemTokens, MemberTokens;
    if !v.Array? && !v.Object? {
      PrintStarts(v, 0, Style(false, slashes), codec);
    }
  }

  lemma ValueBegins<N(!new)>(text: string, pos: nat, v: Json<N>, slashes: bool, codec: Codec<N>, rest: seq<string>)
    requires GoodCodec(codec) && Laid(text, pos, Tokens(v, slashes, codec) + rest)
    ensures ValueStarts(text, SkipSpace(text, pos))
  {
    hide GoodCodec, Tokens, Matches, SkipSpace, StartsValue;
    TokensStart(v, slashes, codec);
    var token := Tokens(v, slashes, codec)[0];
    assert (Tokens(v, slashes, codec) + rest)[0] == token;
    MatchesFirst(text, SkipSpace(text, pos), token);
    MatchesInside(text, SkipSpace(text, pos), token);
  }

  /** Laid tokens of a value parse to it, wherever they are and whatever is skipped between them. */
  lemma {:induction false} LaidParses<N(!new)>(text: string, pos: nat, v: Json<N>, slashes: bool, codec: Codec<N>, nesting: nat)
    requires GoodCodec(codec) && WellFormed(v) && NestsWithin(v, MAX_NESTING - nesting)
    requires Laid(text, pos, Tokens(v, slashes, codec)) && EndsNumber(At(text, End(text, pos, Tokens(v, slashes, codec))))
    ensures ParseValue(text, pos, nesting, codec) == Some((v, End(text, pos, Tokens(v, slashes, codec))))
    decreases v, 1, 0
  {
    hide *;
    var tokens := Tokens(v, slashes, codec);
    SkipStops(text, pos);
    InText(text, pos, tokens);
    var q := SkipSpace(text, pos);
    ValueAfterSpace(text, pos, q, nesting, codec);
    NotTooDeep(v, nesting);
    if v.Array? {
      ArrayLaid(text, pos, v, slashes, codec, nesting + 1);
      BracketParses(text, q, nesting, codec);
    } else if v.Object? {
      ObjectLaid(text, pos, v, slashes, codec, nesting + 1);
      BracketParses(text, q, nesting, codec);
    } else {
      ScalarLaid(text, pos, v, slashes, codec);
      ScalarParses(text, q, v, 0, Style(false, slashes), codec, nesting);
    }
  }

  lemma InText(text: string, pos: nat, tokens: seq<string>)
    requires Laid(text, pos, tokens)
    ensures pos <= |text|
  {}

  lemma NotTooDeep<N>(v: Json<N>, nesting: nat)
    requires NestsWithin(v, MAX_NESTING - nesting)
    ensures nesting <= MAX_NESTING
  {}

  lemma ScalarLaid<N>(text: string, pos: nat, v: Json<N>, slashes: bool, codec: Codec<N>)
    requires !v.Array? && !v.Object? && Laid(text, pos, Tokens(v, slashes, codec))
    ensures var s := Print(v, 0, Style(false, slashes), codec);
            Matches(text, SkipSpace(text, pos), s) && End(text, pos, Tokens(v, slashes, codec)) == SkipSpace(text, pos) + |s|
  {
    hide Print, Matches, SkipSpace;
  }

  lemma BracketParses<N>(text: string, q: nat, nesting: nat, codec: Codec<N>)
    requires q < |text| && SkipSpace(text, q) == q && nesting <= MAX_NESTING
    ensures At(text, q) == '[' ==> ParseValue(text, q, nesting, codec) == ParseArray(text, q, nesting + 1, codec)
    ensures At(text, q) == '{' ==> ParseValue(text, q, nesting, codec) == ParseObject(text, q, nesting + 1, codec)
  {
    hide SkipSpace, ParseArray, ParseObject, ParseQuoted, Matches, StartsNumber;
  }

  /** An opening bracket, what is between, and the closing one. */
  lemma Bracketed(text: string, pos: nat, tokens: seq<string>, open: string, inner: seq<string>, close: string)
    requires |open| == 1 && tokens == [open] + inner + [close] && Laid(text, pos, tokens)
    ensures var q := SkipSpace(text, pos);
            && q < |text| && At(text, q) == open[0] && Laid(text, q + 1, inner + [close]) && End(text, q + 1, inner + [close]) == End(text, pos, tokens)
  {
    hide Matches, SkipSpace;
    var q := SkipSpace(text, pos);
    assert tokens[0] == open && tokens[1..] == inner + [close];
    MatchesFirst(text, q, open);
    MatchesInside(text, q, open);
  }

  /** Only the closing bracket is left. */
  lemma Closes(text: string, pos: nat, close: string)
    requires |close| == 1 && Laid(text, pos, [close])
    ensures SkipSpace(text, pos) < |text| && At(text, SkipSpace(text, pos)) == close[0] && End(text, pos, [close]) == SkipSpace(text, pos) + 1
  {
    hide Matches, SkipSpace;
    var q := SkipSpace(text, pos);
    assert [close][0] == close && [close][1..] == [];
    MatchesFirst(text, q, close);
    MatchesInside(text, q, close);
  }

  lemma {:induction false} ArrayLaid<N(!new)>(text: string, pos: nat, v: Json<N>, slashes: bool, codec: Codec<N>, nesting: nat)
    requires v.Array? && GoodCodec(codec) && WellFormed(v) && NestsWithin(v, MAX_NESTING - nesting + 1)
    requires Laid(text, pos, Tokens(v, slashes, codec))
    ensures var q := SkipSpace(text, pos);
            q < |text| && At(text, q) == '[' && ParseArray(text, q, nesting, codec) == Some((v, End(text, pos, Tokens(v, slashes, codec))))
    decreases v, 0, |v.items| + 1
  {
    hide *;
    var tokens := Tokens(v, slashes, codec);
    InText(text, pos, tokens);
    var q := SkipSpace(text, pos);
    if v.items == [] {
      EmptyTokens(v, slashes, codec);
      Bracketed(text, pos, tokens, "[", [], "]");
      assert [] + ["]"] == ["]"];
      Closes(text, q + 1, "]");
      EmptyArray(text, q, nesting, codec);
    } else {
      var inner := ItemTokens(v, 0, slashes, codec);
      ArrayTokens(v, slashes, codec);
      Bracketed(text, pos, tokens, "[", inner, "]");
      var close := ItemsLaid(text, q + 1, v, 0, slashes, codec, nesting);
      FullArray(text, q, v.items, close, nesting, codec);
      assert v.items[0..] == v.items;
    }
  }

  lemma EmptyTokens<N>(v: Json<N>, slashes: bool, codec: Codec<N>)
    ensures v.Array? && v.items == [] ==> Tokens(v, slashes, codec) == ["["] + [] + ["]"] && v == Array([])
    ensures v.Object? && v.members == [] ==> Tokens(v, slashes, codec) == ["{"] + [] + ["}"] && v == Object([])
  {}

  lemma ArrayTokens<N>(v: Json<N>, slashes: bool, codec: Codec<N>)
    requires v.Array? && v.items != []
    ensures Tokens(v, slashes, codec) == ["["] + ItemTokens(v, 0, slashes, codec) + ["]"] && v == Array(v.items)
  {
    hide ItemTokens;
  }

  lemma EmptyArray<N>(text: string, q: nat, nesting: nat, codec: Codec<N>)
    requires q < |text| && At(text, SkipSpace(text, q + 1)) == ']'
    ensures ParseArray(text, q, nesting, codec) == Some((Array([]), SkipSpace(text, q + 1) + 1))
  {
    hide ParseItems;
  }

  lemma FullArray<N>(text: string, q: nat, items: seq<Json<N>>, close: nat, nesting: nat, codec: Codec<N>)
    requires q < |text| && ValueStarts(text, SkipSpace(text, q + 1)) && ParseItems(text, SkipSpace(text, q + 1), nesting, codec) == Some((items, close))
    requires close < |text| && At(text, close) == ']'
    ensures ParseArray(text, q, nesting, codec) == Some((Array(items), close + 1))
  {
    hide ParseItems, StartsValue;
    StartsAreNot(At(text, SkipSpace(text, q + 1)));
    EndsAreNotSpace(']');
    SkipsNone(text, close);
  }

  /** The items from i on and the bracket behind them. */
  lemma {:induction false} ItemsLaid<N(!new)>(text: string, pos: nat, v: Json<N>, i: nat, slashes: bool, codec: Codec<N>, nesting: nat)
    returns (close: nat)
    requires v.Array? && i < |v.items| && GoodCodec(codec) && WellFormed(v) && NestsWithin(v, MAX_NESTING - nesting + 1)
    requires Laid(text, pos, ItemTokens(v, i, slashes, codec) + ["]"])
    ensures ValueStarts(text, SkipSpace(text, pos))
    ensures ParseItems(text, SkipSpace(text, pos), nesting, codec) == Some((v.items[i..], close))
    ensures close < |text| && At(text, close) == ']' && close + 1 == End(text, pos, ItemTokens(v, i, slashes, codec) + ["]"])
    decreases v, 0, |v.items| - i
  {
    hide *;
    InText(text, pos, ItemTokens(v, i, slashes, codec) + ["]"]);
    var item, mine := v.items[i], Tokens(v.items[i], slashes, codec);
    var start, rest := SkipSpace(text, pos), RestOfItems(v, i, slashes, codec);
    ItemTokensSplit(v, i, slashes, codec);
    ValueBegins(text, pos, item, slashes, codec, rest);
    LaidSplits(text, pos, mine, rest);
    var end := End(text, pos, mine);
    BeforeBracket(text, end, rest);
    ChildFits(v, i, nesting);
    LaidParses(text, pos, item, slashes, codec, nesting);
    SkipStops(text, pos);
    ValueAfterSpace(text, pos, start, nesting, codec);
    close := SkipSpace(text, end);
    if i == |v.items| - 1 {
      Closes(text, end, "]");
      LastItemRead(text, start, end, close, item, nesting, codec);
      assert v.items[i..] == [item];
    } else {
      var comma := close;
      CommaLaid(text, end, ItemTokens(v, i + 1, slashes, codec) + ["]"]);
      close := ItemsLaid(text, comma + 1, v, i + 1, slashes, codec, nesting);
      SpacedItemRead(text, start, end, comma, SkipSpace(text, comma + 1), close, item, v.items[i + 1..], nesting, codec);
      assert v.items[i..] == [item] + v.items[i + 1..];
    }
  }

  /** What follows item i. */
  function RestOfItems<N>(v: Json<N>, i: nat, slashes: bool, codec: Codec<N>): (rest: seq<string>)
    requires v.Array? && i < |v.items|
    ensures rest != [] && (rest[0] == "," || rest[0] == "]")
    ensures i == |v.items| - 1 ==> rest == ["]"]
    ensures i < |v.items| - 1 ==> rest == [","] + (ItemTokens(v, i + 1, slashes, codec) + ["]"])
  {
    if i == |v.items| - 1 then ["]"] else [","] + (ItemTokens(v, i + 1, slashes, codec) + ["]"])
  }

  lemma ItemTokensSplit<N>(v: Json<N>, i: nat, slashes: bool, codec: Codec<N>)
    requires v.Array? && i < |v.items|
    ensures ItemTokens(v, i, slashes, codec) + ["]"] == Tokens(v.items[i], slashes, codec) + RestOfItems(v, i, slashes, codec)
  {
    hide Tokens;
  }

  lemma CommaLaid(text: string, end: nat, more: seq<string>)
    requires Laid(text, end, [","] + more)
    ensures var comma := SkipSpace(text, end);
            comma < |text| && At(text, comma) == ',' && Laid(text, comma + 1, more) && End(text, comma + 1, more) == End(text, end, [","] + more)
  {
    hide Matches, SkipSpace;
    assert ([","] + more)[0] == "," && ([","] + more)[1..] == more;
    MatchesFirst(text, SkipSpace(text, end), ",");
    MatchesInside(text, SkipSpace(text, end), ",");
  }

  /** One round of the parser's loop, when a comma follows the value, perhaps behind white space. */
  lemma SpacedItemRead<N>(text: string, start: nat, end: nat, comma: nat, next: nat, close: nat, item: Json<N>, rest: seq<Json<N>>, nesting: nat, codec: Codec<N>)
    requires ValueStarts(text, start) && ParseValue(text, start, nesting, codec) == Some((item, end))
    requires end <= |text| && SkipSpace(text, end) == comma < |text| && At(text, comma) == ','
    requires SkipSpace(text, comma + 1) == next && ValueStarts(text, next)
    requires ParseItems(text, next, nesting, codec) == Some((rest, close))
    ensures ParseItems(text, start, nesting, codec) == Some(([item] + rest, close))
  {
    hide ParseValue, SkipSpace, StartsValue;
    StartsAreNot(At(text, start));
    StartsAreNot(At(text, next));
  }

  lemma {:induction false} ObjectLaid<N(!new)>(text: string, pos: nat, v: Json<N>, slashes: bool, codec: Codec<N>, nesting: nat)
    requires v.Object? && GoodCodec(codec) && WellFormed(v) && NestsWithin(v, MAX_NESTING - nesting + 1)
    requires Laid(text, pos, Tokens(v, slashes, codec))
    ensures var q := SkipSpace(text, pos);
            q < |text| && At(text, q) == '{' && ParseObject(text, q, nesting, codec) == Some((v, End(text, pos, Tokens(v, slashes, codec))))
    decreases v, 0, |v.members| + 1
  {
    hide *;
    var tokens := Tokens(v, slashes, codec);
    InText(text, pos, tokens);
    var q := SkipSpace(text, pos);
    if v.members == [] {
      EmptyTokens(v, slashes, codec);
      Bracketed(text, pos, tokens, "{", [], "}");
      assert [] + ["}"] == ["}"];
      Closes(text, q + 1, "}");
      EmptyObject(text, q, nesting, codec);
    } else {
      var inner := MemberTokens(v, 0, slashes, codec);
      ObjectTokens(v, slashes, codec);
      Bracketed(text, pos, tokens, "{", inner, "}");
      var close := MembersLaid(text, q + 1, v, 0, slashes, codec, nesting);
      NoNames(v.members);
      FullObject(text, q, v.members, close, nesting, codec);
      assert v.members[0..] == v.members;
    }
  }

  lemma NoNames<N>(members: seq<Member<N>>)
    ensures NamesBefore(members, 0) == {}
  {}

  lemma ObjectTokens<N>(v: Json<N>, slashes: bool, codec: Codec<N>)
    requires v.Object? && v.members != []
    ensures Tokens(v, slashes, codec) == ["{"] + MemberTokens(v, 0, slashes, codec) + ["}"] && v == Object(v.members)
  {
    hide MemberTokens;
  }

  lemma EmptyObject<N>(text: string, q: nat, nesting: nat, codec: Codec<N>)
    requires q < |text| && At(text, SkipSpace(text, q + 1)) == '}'
    ensures ParseObject(text, q, nesting, codec) == Some((Object([]), SkipSpace(text, q + 1) + 1))
  {
    hide ParseMembers;
  }

  lemma FullObject<N>(text: string, q: nat, members: seq<Member<N>>, close: nat, nesting: nat, codec: Codec<N>)
    requires q < |text| && ValueStarts(text, SkipSpace(text, q + 1))
    requires ParseMembers(text, SkipSpace(text, q + 1), nesting, codec, {}) == Some((members, close))
    requires close < |text| && At(text, close) == '}'
    ensures ParseObject(text, q, nesting, codec) == Some((Object(members), close + 1))
  {
    hide ParseMembers, StartsValue;
    StartsAreNot(At(text, SkipSpace(text, q + 1)));
    EndsAreNotSpace('}');
    SkipsNone(text, close);
  }

  /** The members from i on and the brace behind them. */
  lemma {:induction false} MembersLaid<N(!new)>(text: string, pos: nat, v: Json<N>, i: nat, slashes: bool, codec: Codec<N>, nesting: nat)
    returns (close: nat)
    requires v.Object? && i < |v.members| && GoodCodec(codec) && WellFormed(v) && NestsWithin(v, MAX_NESTING - nesting + 1)
    requires Laid(text, pos, MemberTokens(v, i, slashes, codec) + ["}"])
    ensures ValueStarts(text, SkipSpace(text, pos))
    ensures ParseMembers(text, SkipSpace(text, pos), nesting, codec, NamesBefore(v.members, i)) == Some((v.members[i..], close))
    ensures close < |text| && At(text, close) == '}' && close + 1 == End(text, pos, MemberTokens(v, i, slashes, codec) + ["}"])
    decreases v, 0, |v.members| - i
  {
    hide *;
    var m, mine := v.members[i], Tokens(v.members[i].value, slashes, codec);
    var rest := RestOfMembers(v, i, slashes, codec);
    MemberTokensSplit(v, i, slashes, codec);
    var start, end, colon := NameLaid(text, pos, m.name, slashes, mine + rest);
    LaidSplits(text, colon + 1, mine, rest);
    var after := End(text, colon + 1, mine);
    BeforeBracket(text, after, rest);
    MemberFits(v, i, nesting);
    LaidParses(text, colon + 1, m.value, slashes, codec, nesting);
    close := SkipSpace(text, after);
    if i == |v.members| - 1 {
      Closes(text, after, "}");
      LastSpacedMember(text, start, end, colon, after, close, m, nesting, codec, NamesBefore(v.members, i));
      assert v.members[i..] == [m];
    } else {
      var comma := close;
      CommaLaid(text, after, MemberTokens(v, i + 1, slashes, codec) + ["}"]);
      close := MembersLaid(text, comma + 1, v, i + 1, slashes, codec, nesting);
      NextSpacedMember(text, start, end, colon, after, comma, SkipSpace(text, comma + 1), close, m, v.members[i + 1..], nesting, codec, NamesBefore(v.members, i));
      assert v.members[i..] == [m] + v.members[i + 1..];
    }
  }

  /** What follows the value of member i. */
  function RestOfMembers<N>(v: Json<N>, i: nat, slashes: bool, codec: Codec<N>): (rest: seq<string>)
    requires v.Object? && i < |v.members|
    ensures rest != [] && (rest[0] == "," || rest[0] == "}")
    ensures i == |v.members| - 1 ==> rest == ["}"]
    ensures i < |v.members| - 1 ==> rest == [","] + (MemberTokens(v, i + 1, slashes, codec) + ["}"])
  {
    if i == |v.members| - 1 then ["}"] else [","] + (MemberTokens(v, i + 1, slashes, codec) + ["}"])
  }

  lemma MemberTokensSplit<N>(v: Json<N>, i: nat, slashes: bool, codec: Codec<N>)
    requires v.Object? && i < |v.members|
    ensures MemberTokens(v, i, slashes, codec) + ["}"]
         == [Quoted(v.members[i].name, slashes), ":"] + (Tokens(v.members[i].value, slashes, codec) + RestOfMembers(v, i, slashes, codec))
  {
    hide Tokens, Quoted;
  }

  /** A name, a colon and what follows. */
  lemma NameLaid(text: string, pos: nat, name: string, slashes: bool, more: seq<string>) returns (start: nat, end: nat, colon: nat)
    requires Laid(text, pos, [Quoted(name, slashes), ":"] + more)
    ensures start == SkipSpace(text, pos) && ValueStarts(text, start) && ParseQuoted(text, start) == Some((name, end))
    ensures end <= |text| && SkipSpace(text, end) == colon < |text| && At(text, colon) == ':'
    ensures Laid(text, colon + 1, more) && End(text, colon + 1, more) == End(text, pos, [Quoted(name, slashes), ":"] + more)
  {
    QuotedStarts(name, slashes);
    hide Matches, SkipSpace, Quoted, StartsValue, ParseQuoted;
    var q := Quoted(name, slashes);
    var all := [q, ":"] + more;
    assert all[0] == q && all[1..][0] == ":" && all[1..][1..] == more;
    start := SkipSpace(text, pos);
    end := start + |q|;
    colon := SkipSpace(text, end);
    MatchesFirst(text, start, q);
    MatchesInside(text, start, q);
    QuotedParses(text, start, name, slashes);
    MatchesFirst(text, colon, ":");
    MatchesInside(text, colon, ":");
  }

  lemma LastSpacedMember<N>(text: string, start: nat, end: nat, colon: nat, after: nat, close: nat, m: Member<N>, nesting: nat,
                            codec: Codec<N>, names: set<string>)
    requires ValueStarts(text, start) && ParseQuoted(text, start) == Some((m.name, end)) && NUL !in m.name && m.name !in names
    requires end <= |text| && SkipSpace(text, end) == colon < |text| && At(text, colon) == ':'
    requires ParseValue(text, colon + 1, nesting, codec) == Some((m.value, after))
    requires after <= |text| && SkipSpace(text, after) == close && At(text, close) == '}'
    ensures ParseMembers(text, start, nesting, codec, names) == Some(([m], close))
  {
    hide ParseValue, SkipSpace, ParseQuoted, StartsValue;
    StartsAreNot(At(text, start));
  }

  lemma NextSpacedMember<N>(text: string, start: nat, end: nat, colon: nat, after: nat, comma: nat, next: nat, close: nat, m: Member<N>,
                            rest: seq<Member<N>>, nesting: nat, codec: Codec<N>, names: set<string>)
    requires ValueStarts(text, start) && ParseQuoted(text, start) == Some((m.name, end)) && NUL !in m.name && m.name !in names
    requires end <= |text| && SkipSpace(text, end) == colon < |text| && At(text, colon) == ':'
    requires ParseValue(text, colon + 1, nesting, codec) == Some((m.value, after))
    requires after <= |text| && SkipSpace(text, after) == comma < |text| && At(text, comma) == ','
    requires SkipSpace(text, comma + 1) == next && ValueStarts(text, next)
    requires ParseMembers(text, next, nesting, codec, names + {m.name}) == Some((rest, close))
    ensures ParseMembers(text, start, nesting, codec, names) == Some(([m] + rest, close))
  {
    hide ParseValue, SkipSpace, ParseQuoted, StartsValue;
    StartsAreNot(At(text, start));
    StartsAreNot(At(text, next));
  }

  // -------------------------------------------------------------------------- whole texts

  /** Nothing is parsed that begins, behind white space, with what begins no value (RFC 8259, section 3). */
  lemma BeginsNoValue<N>(text: string, pos: nat, nesting: nat, codec: Codec<N>)
    requires pos <= |text| && At(text, SkipSpace(text, pos)) !in "{[\"tfn-0123456789"
    ensures ParseValue(text, pos, nesting, codec) == None
  {
    hide SkipSpace, ParseArray, ParseObject, ParseQuoted, Matches;
    var starts, c := "{[\"tfn-0123456789", At(text, SkipSpace(text, pos));
    assert starts[0] != c && starts[1] != c && starts[2] != c && starts[3] != c && starts[4] != c && starts[5] != c && starts[6] != c;
    if StartsNumber(c) {
      DigitStarts(c);
    }
  }

  lemma DigitStarts(c: char)
    requires StartsNumber(c)
    ensures c in "{[\"tfn-0123456789"
  {
    var starts := "{[\"tfn-0123456789";
    assert starts[6] == '-' && starts[7..] == "0123456789";
    if c != '-' {
      var d := c as int - '0' as int;
      assert starts[7 + d] == starts[7..][d] == c;
    }
  }

  /**
   * Whatever white space stands before, between and behind the tokens of a value that does not
   * nest too deep, the text parses to that value.
   */
  lemma SpacedParses<N(!new)>(v: Json<N>, slashes: bool, codec: Codec<N>, gaps: seq<string>)
    requires GoodCodec(codec) && WellFormed(v) && NestsWithin(v, 2048)
    requires |gaps| == |Tokens(v, slashes, codec)| + 1 && forall i | 0 <= i < |gaps| :: Whites(gaps[i])
    ensures ParseText(Weave(gaps, Tokens(v, slashes, codec)), codec) == Some(v)
  {
    hide GoodCodec, WellFormed, NestsWithin, Tokens, Weave, Whites, EndsNumber;
    var tokens := Tokens(v, slashes, codec);
    var text := Weave(gaps, tokens);
    assert Matches(text, 0, text);
    hide Matches, ParseValue, SkipSpace;
    TokensVisible(v, slashes, codec);
    WovenIsLaid(text, 0, gaps, tokens);
    LastGap(text, End(text, 0, tokens), gaps[|tokens|]);
    LaidParses(text, 0, v, slashes, codec, 0);
    NoByteOrderMark(v, slashes, codec, text);
  }

  /** What follows the last token ends a number. */
  lemma LastGap(text: string, end: nat, gap: string)
    requires Matches(text, end, gap) && end + |gap| == |text| && Whites(gap)
    ensures EndsNumber(At(text, end))
  {
    if gap != "" {
      MatchesFirst(text, end, gap);
      assert White(gap[0]);
    }
  }

  lemma NoByteOrderMark<N(!new)>(v: Json<N>, slashes: bool, codec: Codec<N>, text: string)
    requires GoodCodec(codec) && Laid(text, 0, Tokens(v, slashes, codec))
    ensures At(text, 0) != 0xEF as char
  {
    hide GoodCodec, Tokens;
    assert Tokens(v, slashes, codec) + [] == Tokens(v, slashes, codec);
    ValueBegins(text, 0, v, slashes, codec, []);
  }
}
