/** What printed JSON texts look like. */
module JsonFormat {
  import opened JsonText
  import opened JsonSpacing

  /** Strings one after the other. */
  function Join(parts: seq<string>): string {
    if parts == [] then "" else parts[0] + Join(parts[1..])
  }

  lemma {:induction false} JoinConcat(a: seq<string>, b: seq<string>)
    ensures Join(a + b) == Join(a) + Join(b)
  {
    if a == [] {
      assert a + b == b;
    } else {
      assert (a + b)[1..] == a[1..] + b;
      JoinConcat(a[1..], b);
      Regroup(a[0], Join(a[1..]), Join(b));
    }
  }

  lemma Regroup(a: string, b: string, c: string)
    ensures a + (b + c) == a + b + c
  {}

  lemma JoinOne(s: string)
    ensures Join([s]) == s
  {
    assert [s][1..] == [];
  }

  lemma JoinFirst(s: string, rest: seq<string>)
    ensures Join([s] + rest) == s + Join(rest)
  {
    assert ([s] + rest)[1..] == rest;
  }

  /** Without line breaks a value is printed as its tokens and nothing else. */
  lemma {:induction false} CompactPrints<N>(v: Json<N>, level: nat, slashes: bool, codec: Codec<N>)
    ensures Print(v, level, Style(false, slashes), codec) == Join(Tokens(v, slashes, codec))
    decreases v, 1, 0
  {
    var style := Style(false, slashes);
    if v.Array? && v.items != [] {
      ItemsPrint(v, 0, level, slashes, codec);
      ArrayTokens(v, slashes, codec);
      Enclosed("[", ItemTokens(v, 0, slashes, codec), "]");
      ArrayIs(v, level, slashes, codec);
    } else if v.Object? && v.members != [] {
      MembersPrint(v, 0, level, slashes, codec);
      ObjectTokens(v, slashes, codec);
      Enclosed("{", MemberTokens(v, 0, slashes, codec), "}");
      ObjectIs(v, level, slashes, codec);
    } else if v.Array? || v.Object? {
      EmptyTokens(v, slashes, codec);
      Enclosed("[", [], "]");
      Enclosed("{", [], "}");
      EmptyIs(v, level, slashes, codec);
    } else {
      ScalarTokens(v, level, slashes, codec);
      JoinOne(Print(v, level, style, codec));
    }
  }

  lemma Enclosed(open: string, inner: seq<string>, close: string)
    ensures Join([open] + inner + [close]) == open + Join(inner) + close
  {
    JoinConcat([open] + inner, [close]);
    JoinFirst(open, inner);
    JoinOne(close);
  }

  lemma ScalarTokens<N>(v: Json<N>, level: nat, slashes: bool, codec: Codec<N>)
    requires !v.Array? && !v.Object?
    ensures Tokens(v, slashes, codec) == [Print(v, level, Style(false, slashes), codec)]
  {}

  lemma EmptyIs<N>(v: Json<N>, level: nat, slashes: bool, codec: Codec<N>)
    ensures v.Array? && v.items == [] ==> Print(v, level, Style(false, slashes), codec) == "[" + Join([]) + "]"
    ensures v.Object? && v.members == [] ==> Print(v, level, Style(false, slashes), codec) == "{" + Join([]) + "}"
  {}

  lemma ArrayIs<N>(v: Json<N>, level: nat, slashes: bool, codec: Codec<N>)
    requires v.Array? && v.items != []
    ensures Print(v, level, Style(false, slashes), codec) == "[" + PrintItems(v, 0, level, Style(false, slashes), codec) + "]"
  {
    hide PrintItems;
  }

  lemma ObjectIs<N>(v: Json<N>, level: nat, slashes: bool, codec: Codec<N>)
    requires v.Object? && v.members != []
    ensures Print(v, level, Style(false, slashes), codec) == "{" + PrintMembers(v, 0, level, Style(false, slashes), codec) + "}"
  {
    hide PrintMembers;
  }

  lemma {:induction false} ItemsPrint<N>(v: Json<N>, i: nat, level: nat, slashes: bool, codec: Codec<N>)
    requires v.Array? && i < |v.items|
    ensures PrintItems(v, i, level, Style(false, slashes), codec) == Join(ItemTokens(v, i, slashes, codec))
    decreases v, 0, |v.items| - i
  {
    hide *;
    var mine := Tokens(v.items[i], slashes, codec);
    CompactPrints(v.items[i], level + 1, slashes, codec);
    ItemIs(v, i, level, slashes, codec);
    ItemTokensAre(v, i, slashes, codec);
    if i + 1 < |v.items| {
      ItemsPrint(v, i + 1, level, slashes, codec);
      JoinConcat(mine, [","] + ItemTokens(v, i + 1, slashes, codec));
      JoinFirst(",", ItemTokens(v, i + 1, slashes, codec));
    }
  }

  lemma ItemTokensAre<N>(v: Json<N>, i: nat, slashes: bool, codec: Codec<N>)
    requires v.Array? && i < |v.items|
    ensures ItemTokens(v, i, slashes, codec) ==
            if i + 1 == |v.items| then Tokens(v.items[i], slashes, codec)
            else Tokens(v.items[i], slashes, codec) + ([","] + ItemTokens(v, i + 1, slashes, codec))
  {
    hide Tokens;
  }

  lemma ItemIs<N>(v: Json<N>, i: nat, level: nat, slashes: bool, codec: Codec<N>)
    requires v.Array? && i < |v.items|
    ensures var style := Style(false, slashes);
            PrintItems(v, i, level, style, codec) ==
            if i + 1 == |v.items| then Print(v.items[i], level + 1, style, codec)
            else Print(v.items[i], level + 1, style, codec) + ("," + PrintItems(v, i + 1, level, style, codec))
  {
    hide Print;
    assert i + 1 == |v.items| ==> PrintItems(v, i + 1, level, Style(false, slashes), codec) == "";
  }

  lemma {:induction false} MembersPrint<N>(v: Json<N>, i: nat, level: nat, slashes: bool, codec: Codec<N>)
    requires v.Object? && i < |v.members|
    ensures PrintMembers(v, i, level, Style(false, slashes), codec) == Join(MemberTokens(v, i, slashes, codec))
    decreases v, 0, |v.members| - i
  {
    hide *;
    var name, mine := Quoted(v.members[i].name, slashes), Tokens(v.members[i].value, slashes, codec);
    CompactPrints(v.members[i].value, level + 1, slashes, codec);
    MemberIs(v, i, level, slashes, codec);
    MemberTokensAre(v, i, slashes, codec);
    if i + 1 < |v.members| {
      var rest := [","] + MemberTokens(v, i + 1, slashes, codec);
      MembersPrint(v, i + 1, level, slashes, codec);
      JoinFirst(",", MemberTokens(v, i + 1, slashes, codec));
      JoinConcat(mine, rest);
      JoinFirst(name, [":"] + (mine + rest));
      JoinFirst(":", mine + rest);
    } else {
      JoinFirst(name, [":"] + mine);
      JoinFirst(":", mine);
    }
  }

  lemma MemberTokensAre<N>(v: Json<N>, i: nat, slashes: bool, codec: Codec<N>)
    requires v.Object? && i < |v.members|
    ensures var name, mine := Quoted(v.members[i].name, slashes), Tokens(v.members[i].value, slashes, codec);
            MemberTokens(v, i, slashes, codec) ==
            if i + 1 == |v.members| then [name] + ([":"] + mine)
            else [name] + ([":"] + (mine + ([","] + MemberTokens(v, i + 1, slashes, codec))))
  {
    hide Tokens, Quoted;
  }

  lemma MemberIs<N>(v: Json<N>, i: nat, level: nat, slashes: bool, codec: Codec<N>)
    requires v.Object? && i < |v.members|
    ensures var style, name := Style(false, slashes), Quoted(v.members[i].name, slashes);
            PrintMembers(v, i, level, style, codec) ==
            if i + 1 == |v.members| then name + (":" + Print(v.members[i].value, level + 1, style, codec))
            else name + (":" + (Print(v.members[i].value, level + 1, style, codec) + ("," + PrintMembers(v, i + 1, level, style, codec))))
  {
    hide Print, Quoted;
    assert i + 1 == |v.members| ==> PrintMembers(v, i + 1, level, Style(false, slashes), codec) == "";
  }

  /** With line breaks each level is indented by four blanks. */
  lemma {:induction false} IndentIs(level: nat)
    ensures |Indent(level)| == 4 * level && forall i | 0 <= i < 4 * level :: Indent(level)[i] == ' '
  {
    if level > 0 {
      IndentIs(level - 1);
    }
  }
}
