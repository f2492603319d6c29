/**
 * The texts that the parser accepts: those of the grammar of RFC 8259, and in arrays and objects a
 * comma behind the last item.
 */
module JsonGrammar {
  import opened Wrappers
  import opened JsonText
  import opened JsonRoundTrip

  // ------------------------------------------------------------------------- strings

  /** A character of a string as it is written (RFC 8259, section 7). */
  datatype Piece = Raw(c: char) | Short(e: char) | Unit(digits: string) | Pair(high: string, low: string)

  function Spell(p: Piece): (s: string)
    ensures |s| > 0
    decreases p.Pair?
  {
    match p
    case Raw(c) => [c]
    case Short(e) => ['\\', e]
    case Unit(digits) => ['\\', 'u'] + digits
    case Pair(high, low) => Spell(Unit(high)) + Spell(Unit(low))
  }

  /** What a letter stands for behind a backslash. */
  function Stands(e: char): Option<char> {
    match e as int
    case 0x22 => Some('\"')
    case 0x5C => Some('\\')
    case 0x2F => Some('/')
    case 0x62 => Some(0x08 as char)
    case 0x66 => Some(0x0C as char)
    case 0x6E => Some(0x0A as char)
    case 0x72 => Some(0x0D as char)
    case 0x74 => Some(0x09 as char)
    case _ => None
  }

  /** Four hexadecimal digits for a number from low up to high. */
  predicate Digits(s: string, low: nat, high: nat) {
    |s| == 4 && Hex4(s, 0).Some? && low <= Hex4(s, 0).value <= high
  }

  predicate Allowed(p: Piece) {
    match p
    case Raw(c) => c >= 0x20 as char && c != '\"' && c != '\\'
    case Short(e) => Stands(e).Some?
    case Unit(digits) => Digits(digits, 0, 0xD7FF) || Digits(digits, 0xE000, 0xFFFF)
    case Pair(high, low) => Digits(high, 0xD800, 0xDBFF) && Digits(low, 0xDC00, 0xDFFF)
  }

  /** The bytes it stands for. */
  function Means(p: Piece): string
    requires Allowed(p)
  {
    match p
    case Raw(c) => [c]
    case Short(e) => [Stands(e).value]
    case Unit(digits) => JsonText.Utf8(Hex4(digits, 0).value)
    case Pair(high, low) => JsonText.Utf8(0x10000 + 0x400 * (Hex4(high, 0).value - 0xD800) + (Hex4(low, 0).value - 0xDC00))
  }

  predicate AllAllowed(pieces: seq<Piece>) {
    forall i | 0 <= i < |pieces| :: Allowed(pieces[i])
  }

  function SpellAll(pieces: seq<Piece>): string {
    if pieces == [] then "" else Spell(pieces[0]) + SpellAll(pieces[1..])
  }

  function MeanAll(pieces: seq<Piece>): string
    requires AllAllowed(pieces)
  {
    if pieces == [] then "" else Means(pieces[0]) + MeanAll(pieces[1..])
  }

  lemma HexAt(text: string, pos: nat, digits: string)
    requires |digits| == 4 && Matches(text, pos, digits)
    ensures Hex4(text, pos) == Hex4(digits, 0)
  {
    hide HexValue;
    forall i | 0 <= i < 4 ensures At(text, pos + i) == At(digits, i) {
      MatchesAt(text, pos, digits, i);
    }
  }

  lemma HexInside(text: string, pos: nat)
    requires Hex4(text, pos).Some?
    ensures pos + 4 <= |text|
    ensures forall i | pos <= i < pos + 4 :: text[i] != '\"' && text[i] != '\\' && text[i] != NUL
  {
    NoDigits();
    hide HexValue;
    assert At(text, pos) != NUL && At(text, pos + 1) != NUL && At(text, pos + 2) != NUL && At(text, pos + 3) != NUL;
  }

  lemma NoDigits()
    ensures HexValue(NUL) == -1 && HexValue('\"') == -1 && HexValue('\\') == -1
  {}

  lemma {:induction false} QuotesBehind(text: string, pos: nat, n: nat)
    requires pos + n <= |text| && forall i | pos <= i < pos + n :: text[i] != '\"' && text[i] != '\\' && text[i] != NUL
    ensures SkipQuotes(text, pos) == SkipQuotes(text, pos + n)
    decreases n
  {
    if n > 0 {
      QuotesBehind(text, pos + 1, n - 1);
    }
  }

  /** The closing quote is behind a character. */
  lemma QuotesSkip(text: string, pos: nat, p: Piece)
    requires Allowed(p) && Matches(text, pos, Spell(p))
    ensures pos + |Spell(p)| <= |text| && SkipQuotes(text, pos) == SkipQuotes(text, pos + |Spell(p)|)
  {
    hide Hex4;
    match p
    case Raw(c) => MatchesAt(text, pos, Spell(p), 0);
    case Short(e) =>
      MatchesAt(text, pos, Spell(p), 0);
      MatchesAt(text, pos, Spell(p), 1);
      EscapeSkips(text, pos, e);
    case Unit(digits) => UnitSkips(text, pos, digits);
    case Pair(high, low) =>
      PairAt(text, pos, high, low);
      UnitSkips(text, pos, high);
      UnitSkips(text, pos + 6, low);
  }

  lemma EscapeSkips(text: string, pos: nat, e: char)
    requires At(text, pos) == '\\' && At(text, pos + 1) == e && e != NUL
    ensures pos + 2 <= |text| && SkipQuotes(text, pos) == SkipQuotes(text, pos + 2)
  {}

  lemma UnitSkips(text: string, pos: nat, digits: string)
    requires Digits(digits, 0, 0xFFFF) && Matches(text, pos, Spell(Unit(digits)))
    ensures pos + 6 <= |text| && SkipQuotes(text, pos) == SkipQuotes(text, pos + 6)
  {
    hide Hex4;
    UnitAt(text, pos, digits);
    EscapeSkips(text, pos, 'u');
    HexInside(text, pos + 2);
    QuotesBehind(text, pos + 2, 4);
  }

  /** Where an escape with four digits stands. */
  lemma UnitAt(text: string, pos: nat, digits: string)
    requires |digits| == 4 && Matches(text, pos, Spell(Unit(digits)))
    ensures At(text, pos) == '\\' && At(text, pos + 1) == 'u' && Hex4(text, pos + 2) == Hex4(digits, 0)
  {
    hide Hex4;
    MatchesAt(text, pos, Spell(Unit(digits)), 0);
    MatchesAt(text, pos, Spell(Unit(digits)), 1);
    assert text[pos + 2..pos + 6] == text[pos..pos + 6][2..] == digits;
    HexAt(text, pos + 2, digits);
  }

  lemma PairAt(text: string, pos: nat, high: string, low: string)
    requires |high| == 4 && |low| == 4
    ensures Matches(text, pos, Spell(Pair(high, low))) <==> Matches(text, pos, Spell(Unit(high))) && Matches(text, pos + 6, Spell(Unit(low)))
  {
    var a, b := Spell(Unit(high)), Spell(Unit(low));
    if pos + 12 <= |text| {
      assert text[pos..pos + 12] == text[pos..pos + 6] + text[pos + 6..pos + 12];
      assert text[pos..pos + 12][..6] == text[pos..pos + 6] && text[pos..pos + 12][6..] == text[pos + 6..pos + 12];
      assert (a + b)[..6] == a && (a + b)[6..] == b;
    }
  }

  /** Processing a string gets over a character. */
  lemma PieceProcesses(text: string, pos: nat, end: nat, p: Piece)
    requires Allowed(p) && Matches(text, pos, Spell(p)) && pos + |Spell(p)| <= end
    ensures ProcessString(text, pos, end) == Before(Means(p), ProcessString(text, pos + |Spell(p)|, end))
  {
    hide JsonText.Utf8, Hex4;
    match p
    case Raw(c) => MatchesAt(text, pos, Spell(p), 0);
    case Short(e) =>
      MatchesAt(text, pos, Spell(p), 0);
      MatchesAt(text, pos, Spell(p), 1);
      ShortProcesses(text, pos, end, e);
    case Unit(digits) =>
      UnitAt(text, pos, digits);
      UnicodeProcesses(text, pos, end);
    case Pair(high, low) =>
      PairAt(text, pos, high, low);
      UnitAt(text, pos, high);
      UnitAt(text, pos + 6, low);
      UnicodeProcesses(text, pos, end);
  }

  function Before(s: string, rest: Option<string>): Option<string> {
    match rest case None => None case Some(t) => Some(s + t)
  }

  lemma ShortProcesses(text: string, pos: nat, end: nat, e: char)
    requires At(text, pos) == '\\' && At(text, pos + 1) == e && Stands(e).Some? && pos + 2 <= end
    ensures ProcessString(text, pos, end) == Before([Stands(e).value], ProcessString(text, pos + 2, end))
  {
    hide ParseUtf16;
  }

  lemma UnicodeProcesses(text: string, pos: nat, end: nat)
    requires At(text, pos) == '\\' && At(text, pos + 1) == 'u' && pos + 2 <= end
    ensures ProcessString(text, pos, end)
         == match ParseUtf16(text, pos + 1) case None => None case Some((bytes, last)) => Before(bytes, ProcessString(text, last + 1, end))
  {
    hide ParseUtf16;
  }

  /** What processing accepts begins with a character. */
  lemma FindPiece(text: string, pos: nat, end: nat) returns (p: Piece)
    requires pos < end && At(text, pos) != NUL && At(text, pos) != '\"' && ProcessString(text, pos, end).Some?
    ensures Allowed(p) && Matches(text, pos, Spell(p))
  {
    hide Hex4;
    var c, e := At(text, pos), At(text, pos + 1);
    if c != '\\' {
      p := Raw(c);
    } else if e != 'u' {
      p := Short(e);
      ShortFound(text, pos, end);
    } else {
      UnicodeFound(text, pos, end);
      UnitIs(text, pos);
      if Hex4(text, pos + 2).value < 0xD800 || Hex4(text, pos + 2).value > 0xDFFF {
        p := Unit(text[pos + 2..pos + 6]);
      } else {
        UnitIs(text, pos + 6);
        PairAt(text, pos, text[pos + 2..pos + 6], text[pos + 8..pos + 12]);
        p := Pair(text[pos + 2..pos + 6], text[pos + 8..pos + 12]);
      }
    }
  }

  lemma ShortFound(text: string, pos: nat, end: nat)
    requires pos < end && At(text, pos) == '\\' && At(text, pos + 1) != 'u' && ProcessString(text, pos, end).Some?
    ensures Stands(At(text, pos + 1)).Some? && pos + 2 <= |text|
  {
    hide ParseUtf16;
  }

  lemma UnicodeFound(text: string, pos: nat, end: nat)
    requires pos < end && At(text, pos) == '\\' && At(text, pos + 1) == 'u' && ProcessString(text, pos, end).Some?
    ensures Hex4(text, pos + 2).Some?
    ensures var cp := Hex4(text, pos + 2).value;
            cp < 0xD800 || cp > 0xDFFF ||
            (cp <= 0xDBFF && At(text, pos + 6) == '\\' && At(text, pos + 7) == 'u' && Hex4(text, pos + 8).Some? && 0xDC00 <= Hex4(text, pos + 8).value <= 0xDFFF)
  {
    hide JsonText.Utf8, Hex4;
  }

  lemma UnitIs(text: string, pos: nat)
    requires At(text, pos) == '\\' && At(text, pos + 1) == 'u' && Hex4(text, pos + 2).Some?
    ensures pos + 6 <= |text| && Matches(text, pos, Spell(Unit(text[pos + 2..pos + 6])))
    ensures Hex4(text[pos + 2..pos + 6], 0) == Hex4(text, pos + 2)
  {
    hide Hex4;
    HexInside(text, pos + 2);
    HexAt(text, pos + 2, text[pos + 2..pos + 6]);
    assert text[pos..pos + 6] == ['\\', 'u'] + text[pos + 2..pos + 6];
  }

  /** The characters of a string and the closing quote. */
  function Closed(pieces: seq<Piece>): string {
    SpellAll(pieces) + "\""
  }

  /** A string that is accepted consists of characters. */
  lemma {:induction false} StringSpelled(text: string, pos: nat, end: nat) returns (pieces: seq<Piece>)
    requires pos <= |text| && SkipQuotes(text, pos) == Some(end) && ProcessString(text, pos, end - 1).Some?
    ensures AllAllowed(pieces) && Matches(text, pos, Closed(pieces)) && end == pos + |Closed(pieces)|
    ensures ProcessString(text, pos, end - 1) == Some(MeanAll(pieces))
    decreases |text| - pos
  {
    hide *;
    if At(text, pos) == '\"' {
      pieces := [];
      OnlyQuote(text, pos, end);
    } else {
      StringGoesOn(text, pos, end);
      var p := FindPiece(text, pos, end - 1);
      QuotesSkip(text, pos, p);
      var next := pos + |Spell(p)|;
      PieceProcesses(text, pos, end - 1, p);
      BeforeIs(Means(p), ProcessString(text, next, end - 1));
      var more := StringSpelled(text, next, end);
      pieces := [p] + more;
      AllowedFirst(p, more);
      SpelledSplits(pieces);
      MatchesBoth(text, pos, Spell(p), Closed(more));
    }
  }

  lemma OnlyQuote(text: string, pos: nat, end: nat)
    requires pos <= |text| && SkipQuotes(text, pos) == Some(end) && At(text, pos) == '\"'
    ensures AllAllowed([]) && Matches(text, pos, Closed([])) && end == pos + |Closed([])|
    ensures ProcessString(text, pos, end - 1) == Some(MeanAll([]))
  {
    assert text[pos..pos + 1] == Closed([]);
  }

  lemma AllowedFirst(p: Piece, more: seq<Piece>)
    requires Allowed(p) && AllAllowed(more)
    ensures AllAllowed([p] + more) && ([p] + more)[1..] == more
  {
    hide Allowed;
  }

  lemma StringGoesOn(text: string, pos: nat, end: nat)
    requires pos <= |text| && SkipQuotes(text, pos) == Some(end) && At(text, pos) != '\"'
    ensures At(text, pos) != NUL && pos < end - 1
  {}

  lemma MatchesBoth(text: string, pos: nat, a: string, b: string)
    ensures Matches(text, pos, a + b) <==> Matches(text, pos, a) && Matches(text, pos + |a|, b)
  {
    if pos + |a| + |b| <= |text| {
      var t := text[pos..pos + |a| + |b|];
      assert t == text[pos..pos + |a|] + text[pos + |a|..pos + |a| + |b|];
      assert t[..|a|] == text[pos..pos + |a|] && t[|a|..] == text[pos + |a|..pos + |a| + |b|];
      assert (a + b)[..|a|] == a && (a + b)[|a|..] == b;
    }
  }

  /** Characters in quotes are accepted as a string. */
  lemma {:induction false} SpelledProcesses(text: string, pos: nat, pieces: seq<Piece>)
    requires AllAllowed(pieces) && Matches(text, pos, Closed(pieces))
    ensures pos <= |text| && SkipQuotes(text, pos) == Some(pos + |Closed(pieces)|)
    ensures ProcessString(text, pos, pos + |SpellAll(pieces)|) == Some(MeanAll(pieces))
    decreases |pieces|
  {
    hide *;
    if pieces == [] {
      NothingSpelled(text, pos);
    } else {
      var p, more := pieces[0], pieces[1..];
      SpelledSplits(pieces);
      MatchesBoth(text, pos, Spell(p), Closed(more));
      SpelledProcesses(text, pos + |Spell(p)|, more);
      QuotesSkip(text, pos, p);
      PieceProcesses(text, pos, pos + |SpellAll(pieces)|, p);
      BeforeIs(Means(p), Some(MeanAll(more)));
    }
  }

  lemma BeforeIs(s: string, rest: Option<string>)
    ensures rest.None? ==> Before(s, rest).None?
    ensures rest.Some? ==> Before(s, rest) == Some(s + rest.value)
  {}

  lemma NothingSpelled(text: string, pos: nat)
    requires Matches(text, pos, Closed([]))
    ensures pos <= |text| && SkipQuotes(text, pos) == Some(pos + |Closed([])|) && ProcessString(text, pos, pos + |SpellAll([])|) == Some(MeanAll([]))
  {
    MatchesAt(text, pos, Closed([]), 0);
  }

  lemma SpelledSplits(pieces: seq<Piece>)
    requires pieces != [] && AllAllowed(pieces)
    ensures Allowed(pieces[0]) && AllAllowed(pieces[1..]) && Closed(pieces) == Spell(pieces[0]) + Closed(pieces[1..])
    ensures SpellAll(pieces) == Spell(pieces[0]) + SpellAll(pieces[1..]) && MeanAll(pieces) == Means(pieces[0]) + MeanAll(pieces[1..])
  {
    hide Spell, Means, Allowed;
  }

  /** Characters in quotes. */
  function InQuotes(pieces: seq<Piece>): (s: string)
    ensures |s| > 0
  {
    "\"" + Closed(pieces)
  }

  /** Exactly characters in quotes are accepted as a string, and stand for their bytes. */
  lemma StringsAccepted(text: string, pos: nat, s: string, end: nat)
    requires pos <= |text|
    ensures ParseQuoted(text, pos) == Some((s, end)) <==>
            exists pieces :: AllAllowed(pieces) && Matches(text, pos, InQuotes(pieces)) && end == pos + |InQuotes(pieces)| && s == MeanAll(pieces)
  {
    hide Closed, AllAllowed, MeanAll, SpellAll, SkipQuotes, ProcessString;
    if ParseQuoted(text, pos) == Some((s, end)) {
      var pieces := QuotedSpelled(text, pos);
    }
    if pieces :| AllAllowed(pieces) && Matches(text, pos, InQuotes(pieces)) && end == pos + |InQuotes(pieces)| && s == MeanAll(pieces) {
      SpelledParses(text, pos, pieces);
    }
  }

  lemma QuotedSpelled(text: string, pos: nat) returns (pieces: seq<Piece>)
    requires pos <= |text| && ParseQuoted(text, pos).Some?
    ensures AllAllowed(pieces) && Matches(text, pos, InQuotes(pieces))
    ensures ParseQuoted(text, pos) == Some((MeanAll(pieces), pos + |InQuotes(pieces)|))
  {
    hide Closed, AllAllowed, MeanAll, SpellAll, SkipQuotes, ProcessString;
    pieces := StringSpelled(text, pos + 1, SkipQuotes(text, pos + 1).value);
    assert text[pos..pos + 1] == "\"";
    MatchesBoth(text, pos, "\"", Closed(pieces));
  }

  lemma SpelledParses(text: string, pos: nat, pieces: seq<Piece>)
    requires pos <= |text| && AllAllowed(pieces) && Matches(text, pos, InQuotes(pieces))
    ensures ParseQuoted(text, pos) == Some((MeanAll(pieces), pos + |InQuotes(pieces)|))
  {
    hide *;
    OpeningQuote(text, pos, pieces);
    SpelledProcesses(text, pos + 1, pieces);
    LengthInQuotes(pieces);
    QuotedIs(text, pos, pos + 1 + |Closed(pieces)|, MeanAll(pieces));
  }

  lemma OpeningQuote(text: string, pos: nat, pieces: seq<Piece>)
    requires Matches(text, pos, InQuotes(pieces))
    ensures At(text, pos) == '\"' && Matches(text, pos + 1, Closed(pieces))
  {
    hide Matches, Closed;
    MatchesBoth(text, pos, "\"", Closed(pieces));
    MatchesFirst(text, pos, "\"");
  }

  lemma LengthInQuotes(pieces: seq<Piece>)
    ensures |InQuotes(pieces)| == 1 + |Closed(pieces)| == 2 + |SpellAll(pieces)|
  {
    hide SpellAll;
  }

  lemma QuotedIs(text: string, pos: nat, end: nat, s: string)
    requires pos + 1 <= |text| && pos < end && At(text, pos) == '\"'
    requires SkipQuotes(text, pos + 1) == Some(end) && ProcessString(text, pos + 1, end - 1) == Some(s)
    ensures ParseQuoted(text, pos) == Some((s, end))
  {
    hide SkipQuotes, ProcessString;
  }

  // -------------------------------------------------------------------------- values

  datatype Token<N> = Word(w: string) | Num(n: N) | Str(pieces: seq<Piece>)

  /** Where a token ends that the text has at pos; numbers are as they are read. */
  ghost function TokenEnd<N>(text: string, pos: nat, token: Token<N>, codec: Codec<N>): (end: Option<nat>)
    requires pos <= |text|
    ensures end.Some? ==> pos <= end.value <= |text|
  {
    match token
    case Word(w) => if Matches(text, pos, w) then Some(pos + |w|) else None
    case Str(pieces) => if Matches(text, pos, InQuotes(pieces)) then Some(pos + |InQuotes(pieces)|) else None
    case Num(n) =>
      match codec.read(text, pos)
      case None => None
      case Some((m, used)) => if StartsNumber(At(text, pos)) && m == n then Some(Min(pos + used, |text|)) else None
  }

  /** Where the last of some tokens ends that the text has from pos on, with or without space before each of them. */
  ghost function Lex<N>(text: string, pos: nat, tokens: seq<Token<N>>, codec: Codec<N>): (end: Option<nat>)
    requires pos <= |text|
    ensures end.Some? ==> pos <= end.value <= |text|
    decreases |tokens|
  {
    if tokens == [] then Some(pos)
    else
      match TokenEnd(text, SkipSpace(text, pos), tokens[0], codec)
      case None => None
      case Some(end) => Lex(text, end, tokens[1..], codec)
  }

  /** How a value is written; behind the last item there may be a comma. */
  datatype Tree<N> = Leaf(token: Token<N>) | Items(items: seq<Tree<N>>, comma: bool) | Members(members: seq<Entry<N>>, comma: bool)

  datatype Entry<N> = Entry(name: seq<Piece>, tree: Tree<N>)

  /** The grammar of RFC 8259, sections 3 to 7, and such commas. */
  function Tokens<N>(tree: Tree<N>): seq<Token<N>>
    decreases tree
  {
    match tree
    case Leaf(token) => [token]
    case Items(items, comma) => [Word("[")] + if items == [] then [Word("]")] else ItemTokens(items, comma)
    case Members(members, comma) => [Word("{")] + if members == [] then [Word("}")] else MemberTokens(members, comma)
  }

  function ItemTokens<N>(items: seq<Tree<N>>, comma: bool): seq<Token<N>>
    requires items != []
    decreases items
  {
    Tokens(items[0]) + if |items| == 1 then Closing("]", comma) else [Word(",")] + ItemTokens(items[1..], comma)
  }

  function MemberTokens<N>(members: seq<Entry<N>>, comma: bool): seq<Token<N>>
    requires members != []
    decreases members
  {
    [Str(members[0].name), Word(":")]
    + (Tokens(members[0].tree) + if |members| == 1 then Closing("}", comma) else [Word(",")] + MemberTokens(members[1..], comma))
  }

  function Closing<N>(close: string, comma: bool): seq<Token<N>> {
    if comma then [Word(","), Word(close)] else [Word(close)]
  }

  predicate Proper<N>(tree: Tree<N>) {
    match tree
    case Leaf(Word(w)) => w == "null" || w == "true" || w == "false"
    case Leaf(Num(n)) => true
    case Leaf(Str(pieces)) => AllAllowed(pieces)
    case Items(items, comma) => AllProper(items)
    case Members(members, comma) => AllNamed(members)
  }

  predicate AllProper<N>(items: seq<Tree<N>>) {
    forall i | 0 <= i < |items| :: Proper(items[i])
  }

  predicate AllNamed<N>(members: seq<Entry<N>>) {
    forall i | 0 <= i < |members| :: AllAllowed(members[i].name) && Proper(members[i].tree)
  }

  /** The value that is written. */
  function ValueOf<N>(tree: Tree<N>): Json<N>
    requires Proper(tree)
    decreases tree
  {
    match tree
    case Leaf(Word(w)) => if w == "null" then Null else Boolean(w == "true")
    case Leaf(Num(n)) => Number(n)
    case Leaf(Str(pieces)) => String(MeanAll(pieces))
    case Items(items, _) => Array(ValuesOf(items))
    case Members(members, _) => Object(MembersOf(members))
  }

  function ValuesOf<N>(items: seq<Tree<N>>): (values: seq<Json<N>>)
    requires AllProper(items)
    ensures |values| == |items|
    decreases items
  {
    seq(|items|, i requires 0 <= i < |items| => ValueOf(items[i]))
  }

  function MembersOf<N>(members: seq<Entry<N>>): (values: seq<Member<N>>)
    requires AllNamed(members)
    ensures |values| == |members|
    decreases members
  {
    seq(|members|, i requires 0 <= i < |members| => Member(MeanAll(members[i].name), ValueOf(members[i].tree)))
  }

  /** From pos up to end the text has the value v, written like this. */
  ghost predicate Writes<N>(tree: Tree<N>, text: string, pos: nat, end: nat, v: Json<N>, codec: Codec<N>) {
    && pos <= |text| && Proper(tree) && Lex(text, pos, Tokens(tree), codec) == Some(end) && ValueOf(tree) == v
  }

  // --------------------------------------------------------------------- tokens in a text

  lemma {:induction false} LexBoth<N>(text: string, pos: nat, a: seq<Token<N>>, b: seq<Token<N>>, codec: Codec<N>)
    requires pos <= |text|
    ensures Lex(text, pos, a + b, codec) == match Lex(text, pos, a, codec) case None => None case Some(end) => Lex(text, end, b, codec)
    decreases |a|
  {
    hide TokenEnd, SkipSpace;
    if a == [] {
      assert a + b == b;
    } else {
      assert (a + b)[1..] == a[1..] + b;
      var end := TokenEnd(text, SkipSpace(text, pos), a[0], codec);
      if end.Some? {
        LexBoth(text, end.value, a[1..], b, codec);
      }
    }
  }

  lemma LexOne<N>(text: string, pos: nat, token: Token<N>, codec: Codec<N>)
    requires pos <= |text|
    ensures Lex(text, pos, [token], codec) == TokenEnd(text, SkipSpace(text, pos), token, codec)
  {
    hide TokenEnd, SkipSpace;
  }

  /** A bracket, comma or colon and what follows. */
  lemma LexSign<N>(text: string, pos: nat, sign: string, rest: seq<Token<N>>, codec: Codec<N>)
    requires pos <= |text| && |sign| == 1 && sign[0] != NUL
    ensures Lex(text, pos, [Word(sign)] + rest, codec)
         == if At(text, SkipSpace(text, pos)) == sign[0] then Lex(text, SkipSpace(text, pos) + 1, rest, codec) else None
  {
    hide SkipSpace;
    var q := SkipSpace(text, pos);
    assert Matches(text, q, sign) <==> At(text, q) == sign[0] by {
      if q < |text| {
        assert text[q..q + 1] == [text[q]];
      }
    }
    assert ([Word(sign)] + rest)[1..] == rest;
  }

  lemma LexSigns<N>(text: string, pos: nat, sign: string, codec: Codec<N>)
    requires pos <= |text| && |sign| == 1 && sign[0] != NUL
    ensures Lex(text, pos, [Word(sign)], codec) == if At(text, SkipSpace(text, pos)) == sign[0] then Some(SkipSpace(text, pos) + 1) else None
  {
    hide SkipSpace;
    LexSign(text, pos, sign, [], codec);
    var one: seq<Token<N>> := [Word(sign)];
    assert one + [] == one;
  }

  /** The end of a list, with a comma or without. */
  lemma LexClosing<N>(text: string, pos: nat, close: string, comma: bool, codec: Codec<N>)
    requires pos <= |text| && |close| == 1 && close[0] != NUL
    ensures Lex(text, pos, Closing(close, comma), codec) ==
      var p := SkipSpace(text, pos);
      if !comma then (if At(text, p) == close[0] then Some(p + 1) else None)
      else if At(text, p) == ',' && At(text, SkipSpace(text, p + 1)) == close[0] then Some(SkipSpace(text, p + 1) + 1) else None
  {
    hide SkipSpace, Lex;
    LexSigns(text, pos, close, codec);
    var last: seq<Token<N>> := [Word(close)];
    assert [Word(","), Word(close)] == [Word(",")] + last;
    LexSign(text, pos, ",", last, codec);
    if At(text, SkipSpace(text, pos)) == ',' {
      LexSigns(text, SkipSpace(text, pos) + 1, close, codec);
    }
  }

  // ------------------------------------------------------------------- the parser, in steps

  /** The items up to the closing bracket, and the position behind it. */
  ghost function ItemsClosed<N>(text: string, pos: nat, nesting: nat, codec: Codec<N>): (r: Parsed<seq<Json<N>>>)
    requires pos <= |text|
  {
    match ParseItems(text, pos, nesting, codec)
    case None => None
    case Some((items, end)) => if At(text, SkipSpace(text, end)) == ']' then Some((items, SkipSpace(text, end) + 1)) else None
  }

  ghost function MembersClosed<N>(text: string, pos: nat, nesting: nat, codec: Codec<N>, names: set<string>): (r: Parsed<seq<Member<N>>>)
    requires pos <= |text|
  {
    match ParseMembers(text, pos, nesting, codec, names)
    case None => None
    case Some((members, end)) => if At(text, SkipSpace(text, end)) == '}' then Some((members, SkipSpace(text, end) + 1)) else None
  }

  ghost function Behind<T>(first: T, rest: Parsed<seq<T>>): (r: Parsed<seq<T>>) {
    match rest case None => None case Some((more, end)) => Some(([first] + more, end))
  }

  lemma ItemsStep<N>(text: string, pos: nat, nesting: nat, codec: Codec<N>)
    requires pos <= |text|
    ensures ItemsClosed(text, pos, nesting, codec) ==
      match ParseValue(text, pos, nesting, codec)
      case None => None
      case Some((v, end)) =>
        var p := SkipSpace(text, end);
        if At(text, p) == ']' then Some(([v], p + 1))
        else if At(text, p) != ',' then None
        else
          var q := SkipSpace(text, p + 1);
          if At(text, q) == ']' then Some(([v], q + 1)) else Behind(v, ItemsClosed(text, q, nesting, codec))
  {
    hide *;
    NothingAtNul(text, pos, nesting, codec);
    if ParseValue(text, pos, nesting, codec).Some? {
      var (v, end) := ParseValue(text, pos, nesting, codec).value;
      ItemsGoOn(text, pos, nesting, codec, v, end);
    } else {
      NoItems(text, pos, nesting, codec);
    }
  }

  lemma NoItems<N>(text: string, pos: nat, nesting: nat, codec: Codec<N>)
    requires pos <= |text| && ParseValue(text, pos, nesting, codec).None? && !IsSpace(NUL)
    ensures ItemsClosed(text, pos, nesting, codec).None?
  {
    hide ParseValue, IsSpace;
  }

  /** Behind the first item. */
  lemma ItemsGoOn<N>(text: string, pos: nat, nesting: nat, codec: Codec<N>, v: Json<N>, end: nat)
    requires pos <= |text| && At(text, pos) != NUL && ParseValue(text, pos, nesting, codec) == Some((v, end))
    ensures end <= |text|
    ensures var p := SkipSpace(text, end);
            && p <= |text|
            && (At(text, p) != ',' ==> ItemsClosed(text, pos, nesting, codec) == if At(text, p) == ']' then Some(([v], p + 1)) else None)
            && (At(text, p) == ',' ==>
                  && p < |text|
                  && var q := SkipSpace(text, p + 1);
                     ItemsClosed(text, pos, nesting, codec) == if At(text, q) == ']' then Some(([v], q + 1)) else Behind(v, ItemsClosed(text, q, nesting, codec)))
  {
    hide ParseValue, SkipSpace, ItemsClosed;
    var p := SkipSpace(text, end);
    SkipStops(text, end);
    if At(text, p) != ',' {
      assert ParseItems(text, pos, nesting, codec) == Some(([v], p));
      ClosedAt(text, pos, nesting, codec, [v], p);
    } else {
      var q := SkipSpace(text, p + 1);
      SkipStops(text, p + 1);
      if At(text, q) == ']' {
        assert ParseItems(text, pos, nesting, codec) == Some(([v], q));
        ClosedAt(text, pos, nesting, codec, [v], q);
      } else {
        MoreItems(text, pos, nesting, codec, v, end, p, q);
      }
    }
  }

  lemma ClosedAt<N>(text: string, pos: nat, nesting: nat, codec: Codec<N>, items: seq<Json<N>>, end: nat)
    requires pos <= |text| && ParseItems(text, pos, nesting, codec) == Some((items, end)) && SkipSpace(text, end) == end
    ensures ItemsClosed(text, pos, nesting, codec) == if At(text, end) == ']' then Some((items, end + 1)) else None
  {
    hide ParseItems, SkipSpace;
  }

  lemma MoreItems<N>(text: string, pos: nat, nesting: nat, codec: Codec<N>, v: Json<N>, end: nat, p: nat, q: nat)
    requires pos <= |text| && At(text, pos) != NUL && ParseValue(text, pos, nesting, codec) == Some((v, end))
    requires p == SkipSpace(text, end) < |text| && At(text, p) == ',' && q == SkipSpace(text, p + 1) && At(text, q) != ']'
    ensures ItemsClosed(text, pos, nesting, codec) == Behind(v, ItemsClosed(text, q, nesting, codec))
  {
    hide ParseValue, SkipSpace;
    assert ParseItems(text, pos, nesting, codec) == Behind(v, ParseItems(text, q, nesting, codec));
    hide ParseItems;
  }

  lemma NothingAtNul<N>(text: string, pos: nat, nesting: nat, codec: Codec<N>)
    requires pos <= |text|
    ensures !IsSpace(NUL) && (At(text, pos) == NUL ==> ParseValue(text, pos, nesting, codec).None? && ParseQuoted(text, pos).None?)
  {
    hide ParseArray, ParseObject, Matches;
  }

  lemma MembersStep<N>(text: string, pos: nat, nesting: nat, codec: Codec<N>, names: set<string>)
    requires pos <= |text|
    ensures MembersClosed(text, pos, nesting, codec, names) ==
      match ParseQuoted(text, pos)
      case None => None
      case Some((name, after)) =>
        var colon := SkipSpace(text, after);
        if At(text, colon) != ':' || NUL in name || name in names then None
        else
          match ParseValue(text, colon + 1, nesting, codec)
          case None => None
          case Some((v, end)) => AfterMember(text, end, Member(name, v), nesting, codec, names)
  {
    hide *;
    NothingAtNul(text, pos, nesting, codec);
    if ParseQuoted(text, pos).Some? {
      NamedStep(text, pos, nesting, codec, names, ParseQuoted(text, pos).value.0, ParseQuoted(text, pos).value.1);
    } else {
      NoMembers(text, pos, nesting, codec, names);
    }
  }

  lemma NamedStep<N>(text: string, pos: nat, nesting: nat, codec: Codec<N>, names: set<string>, name: string, after: nat)
    requires pos <= |text| && At(text, pos) != NUL && ParseQuoted(text, pos) == Some((name, after))
    ensures after <= |text|
    ensures MembersClosed(text, pos, nesting, codec, names) ==
      var colon := SkipSpace(text, after);
      if At(text, colon) != ':' || NUL in name || name in names then None
      else
        match ParseValue(text, colon + 1, nesting, codec)
        case None => None
        case Some((v, end)) => AfterMember(text, end, Member(name, v), nesting, codec, names)
  {
    hide *;
    MemberBegins(text, pos, nesting, codec, names, name, after);
    var colon := SkipSpace(text, after);
    if At(text, colon) == ':' && NUL !in name && ParseValue(text, colon + 1, nesting, codec).Some? {
      var r := ParseValue(text, colon + 1, nesting, codec).value;
      MembersGoOn(text, pos, nesting, codec, names, name, after, r.0, r.1);
    }
  }

  /** Behind the value of a member. */
  ghost function AfterMember<N>(text: string, end: nat, m: Member<N>, nesting: nat, codec: Codec<N>, names: set<string>): Parsed<seq<Member<N>>>
    requires end <= |text|
  {
    var p := SkipSpace(text, end);
    if At(text, p) == '}' then Some(([m], p + 1))
    else if At(text, p) != ',' then None
    else
      var q := SkipSpace(text, p + 1);
      if At(text, q) == '}' then Some(([m], q + 1)) else Behind(m, MembersClosed(text, q, nesting, codec, names + {m.name}))
  }

  lemma NoMembers<N>(text: string, pos: nat, nesting: nat, codec: Codec<N>, names: set<string>)
    requires pos <= |text| && ParseQuoted(text, pos).None? && !IsSpace(NUL)
    ensures MembersClosed(text, pos, nesting, codec, names).None?
  {
    hide ParseQuoted, IsSpace;
  }

  lemma MemberBegins<N>(text: string, pos: nat, nesting: nat, codec: Codec<N>, names: set<string>, name: string, after: nat)
    requires pos <= |text| && At(text, pos) != NUL && ParseQuoted(text, pos) == Some((name, after))
    ensures after <= |text| && SkipSpace(text, after) <= |text|
    ensures var colon := SkipSpace(text, after);
            && (At(text, colon) == ':' ==> colon < |text|)
            && (At(text, colon) != ':' || NUL in name || ParseValue(text, colon + 1, nesting, codec).None? ==>
                  MembersClosed(text, pos, nesting, codec, names).None?)
  {
    hide ParseQuoted, SkipSpace, ParseValue;
  }

  /** Behind the value of the first member. */
  lemma MembersGoOn<N>(text: string, pos: nat, nesting: nat, codec: Codec<N>, names: set<string>, name: string, after: nat, v: Json<N>, end: nat)
    requires pos <= |text| && At(text, pos) != NUL && ParseQuoted(text, pos) == Some((name, after)) && NUL !in name
    requires after <= |text| && At(text, SkipSpace(text, after)) == ':' && SkipSpace(text, after) < |text|
    requires ParseValue(text, SkipSpace(text, after) + 1, nesting, codec) == Some((v, end))
    ensures end <= |text|
    ensures MembersClosed(text, pos, nesting, codec, names)
         == if name in names then None else AfterMember(text, end, Member(name, v), nesting, codec, names)
  {
    hide ParseValue, SkipSpace, ParseQuoted, MembersClosed;
    var p, m := SkipSpace(text, end), Member(name, v);
    SkipStops(text, end);
    if name in names {
      assert ParseMembers(text, pos, nesting, codec, names).None?;
      NoneClosed(text, pos, nesting, codec, names);
    } else if At(text, p) != ',' {
      assert ParseMembers(text, pos, nesting, codec, names) == Some(([m], p));
      MembersClosedAt(text, pos, nesting, codec, names, [m], p);
    } else {
      var q := SkipSpace(text, p + 1);
      SkipStops(text, p + 1);
      if At(text, q) == '}' {
        assert ParseMembers(text, pos, nesting, codec, names) == Some(([m], q));
        MembersClosedAt(text, pos, nesting, codec, names, [m], q);
      } else {
        assert ParseMembers(text, pos, nesting, codec, names) == Behind(m, ParseMembers(text, q, nesting, codec, names + {name}));
        MoreMembers(text, pos, nesting, codec, names, m, q);
      }
    }
  }

  lemma AfterMemberIs<N>(text: string, end: nat, m: Member<N>, nesting: nat, codec: Codec<N>, names: set<string>)
    requires end <= |text|
    ensures AfterMember(text, end, m, nesting, codec, names) ==
      var p := SkipSpace(text, end);
      if At(text, p) == '}' then Some(([m], p + 1))
      else if At(text, p) != ',' then None
      else
        var q := SkipSpace(text, p + 1);
        if At(text, q) == '}' then Some(([m], q + 1)) else Behind(m, MembersClosed(text, q, nesting, codec, names + {m.name}))
  {
    hide SkipSpace, MembersClosed;
  }

  lemma NoneClosed<N>(text: string, pos: nat, nesting: nat, codec: Codec<N>, names: set<string>)
    requires pos <= |text| && ParseMembers(text, pos, nesting, codec, names).None?
    ensures MembersClosed(text, pos, nesting, codec, names).None?
  {
    hide ParseMembers;
  }

  lemma MembersClosedAt<N>(text: string, pos: nat, nesting: nat, codec: Codec<N>, names: set<string>, members: seq<Member<N>>, end: nat)
    requires pos <= |text| && ParseMembers(text, pos, nesting, codec, names) == Some((members, end)) && SkipSpace(text, end) == end
    ensures MembersClosed(text, pos, nesting, codec, names) == if At(text, end) == '}' then Some((members, end + 1)) else None
  {
    hide ParseMembers, SkipSpace;
  }

  lemma MoreMembers<N>(text: string, pos: nat, nesting: nat, codec: Codec<N>, names: set<string>, m: Member<N>, q: nat)
    requires pos <= |text| && q <= |text| && ParseMembers(text, pos, nesting, codec, names) == Behind(m, ParseMembers(text, q, nesting, codec, names + {m.name}))
    ensures MembersClosed(text, pos, nesting, codec, names) == Behind(m, MembersClosed(text, q, nesting, codec, names + {m.name}))
  {
    hide ParseMembers, SkipSpace;
  }

  lemma ArrayStep<N>(text: string, pos: nat, nesting: nat, codec: Codec<N>)
    requires pos < |text|
    ensures ParseArray(text, pos, nesting, codec) ==
      var start := SkipSpace(text, pos + 1);
      if At(text, start) == ']' then Some((Array([]), start + 1))
      else match ItemsClosed(text, start, nesting, codec) case None => None case Some((items, end)) => Some((Array(items), end))
  {
    hide SkipSpace, ParseItems;
  }

  lemma ObjectStep<N>(text: string, pos: nat, nesting: nat, codec: Codec<N>)
    requires pos < |text|
    ensures ParseObject(text, pos, nesting, codec) ==
      var start := SkipSpace(text, pos + 1);
      if At(text, start) == '}' then Some((Object([]), start + 1))
      else match MembersClosed(text, start, nesting, codec, {}) case None => None case Some((members, end)) => Some((Object(members), end))
  {
    hide SkipSpace, ParseMembers;
  }

  // ------------------------------------------------------- what is parsed has been written

  /** Space before the first token makes no difference. */
  lemma LexSkips<N>(text: string, pos: nat, tokens: seq<Token<N>>, codec: Codec<N>)
    requires pos <= |text| && tokens != []
    ensures Lex(text, pos, tokens, codec) == Lex(text, SkipSpace(text, pos), tokens, codec)
  {
    SkipStops(text, pos);
    hide SkipSpace, TokenEnd;
  }

  lemma TokensNotEmpty<N>(tree: Tree<N>)
    ensures Tokens(tree) != []
  {
    hide ItemTokens, MemberTokens;
  }

  lemma LexItems<N>(text: string, pos: nat, items: seq<Tree<N>>, comma: bool, codec: Codec<N>)
    requires pos <= |text| && items != []
    ensures Lex(text, pos, ItemTokens(items, comma), codec) ==
      match Lex(text, pos, Tokens(items[0]), codec)
      case None => None
      case Some(end) =>
        if |items| == 1 then Lex(text, end, Closing("]", comma), codec)
        else if At(text, SkipSpace(text, end)) == ',' then Lex(text, SkipSpace(text, end) + 1, ItemTokens(items[1..], comma), codec)
        else None
  {
    hide Lex, SkipSpace, Tokens, Closing;
    var first := Tokens(items[0]);
    if |items| == 1 {
      LexBoth(text, pos, first, Closing("]", comma), codec);
    } else {
      var more := ItemTokens(items[1..], comma);
      hide ItemTokens;
      LexBoth(text, pos, first, [Word(",")] + more, codec);
      var end := Lex(text, pos, first, codec);
      if end.Some? {
        LexSign(text, end.value, ",", more, codec);
      }
    }
  }

  lemma LexMembers<N>(text: string, pos: nat, members: seq<Entry<N>>, comma: bool, codec: Codec<N>)
    requires pos <= |text| && members != []
    ensures Lex(text, pos, MemberTokens(members, comma), codec) ==
      match TokenEnd(text, SkipSpace(text, pos), Str(members[0].name), codec)
      case None => None
      case Some(after) =>
        if At(text, SkipSpace(text, after)) != ':' then None
        else
          match Lex(text, SkipSpace(text, after) + 1, Tokens(members[0].tree), codec)
          case None => None
          case Some(end) => LexRest(text, end, members, comma, codec)
  {
    hide *;
    MemberTokensAre(members, comma);
    var first, rest := Tokens(members[0].tree), RestOfMembers(members, comma);
    var all := first + rest;
    NameFirst(text, pos, Str(members[0].name), all, codec);
    var after := TokenEnd(text, SkipSpace(text, pos), Str(members[0].name), codec);
    if after.Some? && At(text, SkipSpace(text, after.value)) == ':' {
      SignInside(text, after.value);
      var value := SkipSpace(text, after.value) + 1;
      LexBoth(text, value, first, rest, codec);
      var end := Lex(text, value, first, codec);
      if end.Some? {
        LexRestIs(text, end.value, members, comma, codec);
      }
    }
  }

  /** Behind the first member. */
  ghost function LexRest<N>(text: string, end: nat, members: seq<Entry<N>>, comma: bool, codec: Codec<N>): Option<nat>
    requires end <= |text| && members != []
  {
    if |members| == 1 then Lex(text, end, Closing("}", comma), codec)
    else if At(text, SkipSpace(text, end)) == ',' then Lex(text, SkipSpace(text, end) + 1, MemberTokens(members[1..], comma), codec)
    else None
  }

  function RestOfMembers<N>(members: seq<Entry<N>>, comma: bool): seq<Token<N>>
    requires members != []
  {
    if |members| == 1 then Closing("}", comma) else [Word(",")] + MemberTokens(members[1..], comma)
  }

  lemma MemberTokensAre<N>(members: seq<Entry<N>>, comma: bool)
    requires members != []
    ensures MemberTokens(members, comma) == [Str(members[0].name), Word(":")] + (Tokens(members[0].tree) + RestOfMembers(members, comma))
  {
    hide Tokens, Closing;
  }

  lemma LexRestIs<N>(text: string, end: nat, members: seq<Entry<N>>, comma: bool, codec: Codec<N>)
    requires end <= |text| && members != []
    ensures Lex(text, end, RestOfMembers(members, comma), codec) == LexRest(text, end, members, comma, codec)
  {
    hide Lex, SkipSpace, MemberTokens, Closing;
    if |members| > 1 {
      LexSign(text, end, ",", MemberTokens(members[1..], comma), codec);
    }
  }

  lemma LexRestOf<N>(text: string, end: nat, members: seq<Entry<N>>, comma: bool, codec: Codec<N>)
    requires end <= |text| && members != []
    ensures |members| == 1 ==> LexRest(text, end, members, comma, codec) == Lex(text, end, Closing("}", comma), codec)
    ensures |members| > 1 ==>
              LexRest(text, end, members, comma, codec)
              == if At(text, SkipSpace(text, end)) == ',' then Lex(text, SkipSpace(text, end) + 1, MemberTokens(members[1..], comma), codec) else None
  {
    hide Lex, SkipSpace, MemberTokens, Closing;
  }

  lemma NameFirst<N>(text: string, pos: nat, name: Token<N>, rest: seq<Token<N>>, codec: Codec<N>)
    requires pos <= |text|
    ensures Lex(text, pos, [name, Word(":")] + rest, codec) ==
      match TokenEnd(text, SkipSpace(text, pos), name, codec)
      case None => None
      case Some(after) =>
        if At(text, SkipSpace(text, after)) == ':' then Lex(text, SkipSpace(text, after) + 1, rest, codec) else None
  {
    hide TokenEnd, SkipSpace;
    var both: seq<Token<N>> := [name, Word(":")];
    assert (both + rest)[1..] == [Word(":")] + rest;
    var after := TokenEnd(text, SkipSpace(text, pos), name, codec);
    if after.Some? {
      LexSign(text, after.value, ":", rest, codec);
    }
  }

  /** Values without duplicate or cut names that do not nest too deep. */
  ghost predicate Fits<N>(v: Json<N>, room: int) {
    WellFormed(v) && NestsWithin(v, room)
  }

  ghost predicate AllFit<N>(items: seq<Json<N>>, room: int) {
    forall i | 0 <= i < |items| :: Fits(items[i], room)
  }

  /** The same for members, the names of which are not among those before them. */
  ghost predicate MembersFit<N>(members: seq<Member<N>>, names: set<string>, room: int) {
    && (forall i | 0 <= i < |members| :: NUL !in members[i].name && members[i].name !in names && Fits(members[i].value, room))
    && forall i, j | 0 <= i < j < |members| :: members[i].name != members[j].name
  }

  lemma FitsIs<N>(v: Json<N>, room: int)
    ensures v.Array? ==> (Fits(v, room) <==> 0 <= room && AllFit(v.items, room - 1))
    ensures v.Object? ==> (Fits(v, room) <==> 0 <= room && MembersFit(v.members, {}, room - 1))
    ensures (v.Array? ==> v.items == []) && (v.Object? ==> v.members == []) ==> (Fits(v, room) <==> 0 <= room)
  {}

  lemma FirstOf<N>(items: seq<Tree<N>>)
    requires items != [] && AllProper(items)
    ensures Proper(items[0]) && AllProper(items[1..]) && ValuesOf(items) == [ValueOf(items[0])] + ValuesOf(items[1..])
  {
    hide Proper, ValueOf;
  }

  lemma FirstNamed<N>(members: seq<Entry<N>>)
    requires members != [] && AllNamed(members)
    ensures AllAllowed(members[0].name) && Proper(members[0].tree) && AllNamed(members[1..])
    ensures MembersOf(members) == [Member(MeanAll(members[0].name), ValueOf(members[0].tree))] + MembersOf(members[1..])
  {
    hide Proper, ValueOf, AllAllowed, MeanAll;
  }

  lemma FirstFits<N>(items: seq<Json<N>>, room: int)
    requires items != []
    ensures AllFit(items, room) <==> Fits(items[0], room) && AllFit(items[1..], room)
  {
    hide Fits;
    if Fits(items[0], room) && AllFit(items[1..], room) {
      forall i | 0 <= i < |items| ensures Fits(items[i], room) {
        assert i > 0 ==> items[i] == items[1..][i - 1];
      }
    }
  }

  lemma FirstMemberFits<N>(members: seq<Member<N>>, names: set<string>, room: int)
    requires members != []
    ensures MembersFit(members, names, room) <==>
            (var m := members[0]; NUL !in m.name && m.name !in names && Fits(m.value, room) && MembersFit(members[1..], names + {m.name}, room))
  {
    hide Fits;
    var m, more := members[0], members[1..];
    if NUL !in m.name && m.name !in names && Fits(m.value, room) && MembersFit(more, names + {m.name}, room) {
      forall i | 0 <= i < |members| ensures NUL !in members[i].name && members[i].name !in names && Fits(members[i].value, room) {
        assert i > 0 ==> members[i] == more[i - 1];
      }
      forall i, j | 0 <= i < j < |members| ensures members[i].name != members[j].name {
        assert members[j] == more[j - 1] && (i > 0 ==> members[i] == more[i - 1]);
      }
    }
  }

  /** A value that is parsed has been written, nests no deeper than allowed and has different names in each object. */
  lemma {:induction false} ValueWritten<N>(text: string, pos: nat, nesting: nat, codec: Codec<N>) returns (tree: Tree<N>)
    requires pos <= |text| && ParseValue(text, pos, nesting, codec).Some?
    ensures var (v, end) := ParseValue(text, pos, nesting, codec).value;
            Writes(tree, text, pos, end, v, codec) && Fits(v, MAX_NESTING - nesting)
    decreases |text| - pos, 1
  {
    hide *;
    var q := SkipSpace(text, pos);
    ValueAfterSpace(text, pos, q, nesting, codec);
    SkipStops(text, pos);
    ByFirst(text, q, nesting, codec);
    if At(text, q) == '[' {
      tree := ArrayWritten(text, q, nesting + 1, codec);
    } else if At(text, q) == '{' {
      tree := ObjectWritten(text, q, nesting + 1, codec);
    } else {
      tree := ScalarWritten(text, q, nesting, codec);
    }
    var (v, end) := ParseValue(text, pos, nesting, codec).value;
    WritesSkips(tree, text, pos, end, v, codec);
  }

  lemma WritesSkips<N>(tree: Tree<N>, text: string, pos: nat, end: nat, v: Json<N>, codec: Codec<N>)
    requires pos <= |text|
    ensures Writes(tree, text, pos, end, v, codec) <==> Writes(tree, text, SkipSpace(text, pos), end, v, codec)
  {
    hide Lex, Tokens, SkipSpace, ValueOf, Proper;
    TokensNotEmpty(tree);
    LexSkips(text, pos, Tokens(tree), codec);
  }

  /** What the first character decides. */
  lemma ByFirst<N>(text: string, q: nat, nesting: nat, codec: Codec<N>)
    requires q <= |text| && SkipSpace(text, q) == q
    ensures ParseValue(text, q, nesting, codec).Some? ==> nesting <= MAX_NESTING
    ensures nesting <= MAX_NESTING && At(text, q) == '[' ==> q < |text| && ParseValue(text, q, nesting, codec) == ParseArray(text, q, nesting + 1, codec)
    ensures nesting <= MAX_NESTING && At(text, q) == '{' ==> q < |text| && ParseValue(text, q, nesting, codec) == ParseObject(text, q, nesting + 1, codec)
  {
    hide SkipSpace, ParseArray, ParseObject, ParseQuoted, Matches, StartsNumber;
  }

  lemma ScalarWritten<N>(text: string, q: nat, nesting: nat, codec: Codec<N>) returns (tree: Tree<N>)
    requires q <= |text| && SkipSpace(text, q) == q && At(text, q) != '[' && At(text, q) != '{' && ParseValue(text, q, nesting, codec).Some?
    ensures var (v, end) := ParseValue(text, q, nesting, codec).value;
            Writes(tree, text, q, end, v, codec) && Fits(v, MAX_NESTING - nesting)
  {
    hide SkipSpace, ParseArray, ParseObject, ParseQuoted, Matches, StartsNumber, MeanAll, AllAllowed, InQuotes;
    var (v, end) := ParseValue(text, q, nesting, codec).value;
    var token: Token<N> := Word("");
    match v {
      case Null => token := Word("null");
      case Boolean(b) => token := Word(if b then "true" else "false");
      case Number(n) => token := Num(n);
      case String(s) =>
        var pieces := QuotedSpelled(text, q);
        token := Str(pieces);
      case _ =>
    }
    tree := Leaf(token);
    LexOne(text, q, token, codec);
  }

  lemma {:induction false} ArrayWritten<N>(text: string, q: nat, nesting: nat, codec: Codec<N>) returns (tree: Tree<N>)
    requires q < |text| && At(text, q) == '[' && SkipSpace(text, q) == q && ParseArray(text, q, nesting, codec).Some? && nesting <= MAX_NESTING + 1
    ensures var (v, end) := ParseArray(text, q, nesting, codec).value;
            Writes(tree, text, q, end, v, codec) && Fits(v, MAX_NESTING - nesting + 1)
    decreases |text| - q, 0
  {
    hide *;
    ArrayStep(text, q, nesting, codec);
    var (v, end) := ParseArray(text, q, nesting, codec).value;
    FitsIs(v, MAX_NESTING - nesting + 1);
    SkipStops(text, q + 1);
    if At(text, SkipSpace(text, q + 1)) == ']' {
      tree := EmptyWritten(text, q, codec);
    } else {
      var items, comma := ItemsWritten(text, SkipSpace(text, q + 1), nesting, codec);
      tree := Items(items, comma);
      ItemsAre(text, q, items, comma, end, codec);
    }
  }

  lemma EmptyWritten<N>(text: string, q: nat, codec: Codec<N>) returns (tree: Tree<N>)
    requires q < |text| && SkipSpace(text, q) == q
    ensures At(text, q) == '[' && At(text, SkipSpace(text, q + 1)) == ']' ==>
              tree == Items([], false) && Writes(tree, text, q, SkipSpace(text, q + 1) + 1, Array([]), codec)
    ensures At(text, q) == '{' && At(text, SkipSpace(text, q + 1)) == '}' ==>
              tree == Members([], false) && Writes(tree, text, q, SkipSpace(text, q + 1) + 1, Object([]), codec)
  {
    hide Lex, SkipSpace;
    if At(text, q) == '[' {
      tree := Items([], false);
      LexSign(text, q, "[", [Word("]")], codec);
      LexSigns(text, q + 1, "]", codec);
    } else {
      tree := Members([], false);
      LexSign(text, q, "{", [Word("}")], codec);
      LexSigns(text, q + 1, "}", codec);
    }
  }

  /** An array is a bracket and its items. */
  lemma ItemsAre<N>(text: string, q: nat, items: seq<Tree<N>>, comma: bool, end: nat, codec: Codec<N>)
    requires q < |text| && At(text, q) == '[' && SkipSpace(text, q) == q && items != [] && AllProper(items)
    ensures Writes(Items(items, comma), text, q, end, Array(ValuesOf(items)), codec)
       <==> Lex(text, SkipSpace(text, q + 1), ItemTokens(items, comma), codec) == Some(end)
  {
    hide Lex, SkipSpace, ItemTokens, AllProper, ValuesOf;
    LexSign(text, q, "[", ItemTokens(items, comma), codec);
    ListNotEmpty(items, comma);
    LexSkips(text, q + 1, ItemTokens(items, comma), codec);
  }

  lemma ListNotEmpty<N>(items: seq<Tree<N>>, comma: bool)
    requires items != []
    ensures ItemTokens(items, comma) != []
  {
    TokensNotEmpty(items[0]);
    hide Tokens;
  }

  lemma {:induction false} ItemsWritten<N>(text: string, pos: nat, nesting: nat, codec: Codec<N>) returns (items: seq<Tree<N>>, comma: bool)
    requires pos <= |text| && ItemsClosed(text, pos, nesting, codec).Some?
    ensures items != [] && AllProper(items)
    ensures var (vs, end) := ItemsClosed(text, pos, nesting, codec).value;
            Lex(text, pos, ItemTokens(items, comma), codec) == Some(end) && ValuesOf(items) == vs && AllFit(vs, MAX_NESTING - nesting)
    decreases |text| - pos, 2
  {
    hide *;
    ItemsStep(text, pos, nesting, codec);
    var (vs, last) := ItemsClosed(text, pos, nesting, codec).value;
    var (v, end) := ParseValue(text, pos, nesting, codec).value;
    var tree := ValueWritten(text, pos, nesting, codec);
    WritesIs(tree, text, pos, end, v, codec);
    var p := SkipSpace(text, end);
    SignInside(text, end);
    if At(text, p) == ']' || At(text, SkipSpace(text, p + 1)) == ']' {
      items, comma := [tree], At(text, p) != ']';
      LexItems(text, pos, items, comma, codec);
      LexClosing(text, end, "]", comma, codec);
      OneFits(tree, MAX_NESTING - nesting);
    } else {
      var more;
      var q := SkipSpace(text, p + 1);
      BehindIs(v, ItemsClosed(text, q, nesting, codec));
      more, comma := ItemsWritten(text, q, nesting, codec);
      items := [tree] + more;
      OneMore(tree, more, MAX_NESTING - nesting);
      LexItems(text, pos, items, comma, codec);
      ListNotEmpty(more, comma);
      LexSkips(text, p + 1, ItemTokens(more, comma), codec);
    }
  }

  lemma SignInside(text: string, end: nat)
    requires end <= |text|
    ensures SkipSpace(text, end) <= |text| && (At(text, SkipSpace(text, end)) != NUL ==> SkipSpace(text, end) < |text|)
    ensures ',' != NUL && ']' != NUL && '}' != NUL && ':' != NUL && ',' != ']' && ',' != '}'
  {
    hide SkipSpace;
  }

  lemma WritesIs<N>(tree: Tree<N>, text: string, pos: nat, end: nat, v: Json<N>, codec: Codec<N>)
    requires Writes(tree, text, pos, end, v, codec)
    ensures pos <= end <= |text| && Proper(tree) && Lex(text, pos, Tokens(tree), codec) == Some(end) && ValueOf(tree) == v
  {
    hide Lex, Tokens, ValueOf, Proper;
  }

  lemma OneFits<N>(tree: Tree<N>, room: int)
    requires Proper(tree)
    ensures AllProper([tree]) && ValuesOf([tree]) == [ValueOf(tree)] && (Fits(ValueOf(tree), room) ==> AllFit([ValueOf(tree)], room))
  {
    hide Proper, ValueOf, Fits;
  }

  lemma OneMore<N>(tree: Tree<N>, more: seq<Tree<N>>, room: int)
    requires Proper(tree) && AllProper(more)
    ensures AllProper([tree] + more) && ValuesOf([tree] + more) == [ValueOf(tree)] + ValuesOf(more) && ([tree] + more)[1..] == more
    ensures Fits(ValueOf(tree), room) && AllFit(ValuesOf(more), room) ==> AllFit([ValueOf(tree)] + ValuesOf(more), room)
  {
    hide Proper, ValueOf, Fits;
  }

  lemma {:induction false} ObjectWritten<N>(text: string, q: nat, nesting: nat, codec: Codec<N>) returns (tree: Tree<N>)
    requires q < |text| && At(text, q) == '{' && SkipSpace(text, q) == q && ParseObject(text, q, nesting, codec).Some? && nesting <= MAX_NESTING + 1
    ensures var (v, end) := ParseObject(text, q, nesting, codec).value;
            Writes(tree, text, q, end, v, codec) && Fits(v, MAX_NESTING - nesting + 1)
    decreases |text| - q, 0
  {
    hide *;
    ObjectStep(text, q, nesting, codec);
    var (v, end) := ParseObject(text, q, nesting, codec).value;
    FitsIs(v, MAX_NESTING - nesting + 1);
    SkipStops(text, q + 1);
    if At(text, SkipSpace(text, q + 1)) == '}' {
      tree := EmptyWritten(text, q, codec);
    } else {
      var members, comma := MembersWritten(text, SkipSpace(text, q + 1), nesting, codec, {});
      tree := Members(members, comma);
      MembersAre(text, q, members, comma, end, codec);
    }
  }

  /** An object is a brace and its members. */
  lemma MembersAre<N>(text: string, q: nat, members: seq<Entry<N>>, comma: bool, end: nat, codec: Codec<N>)
    requires q < |text| && At(text, q) == '{' && SkipSpace(text, q) == q && members != [] && AllNamed(members)
    ensures Writes(Members(members, comma), text, q, end, Object(MembersOf(members)), codec)
       <==> Lex(text, SkipSpace(text, q + 1), MemberTokens(members, comma), codec) == Some(end)
  {
    hide Lex, SkipSpace, MemberTokens, MembersOf, AllNamed;
    LexSign(text, q, "{", MemberTokens(members, comma), codec);
    ObjectNotEmpty(members, comma);
    LexSkips(text, q + 1, MemberTokens(members, comma), codec);
  }

  lemma ObjectNotEmpty<N>(members: seq<Entry<N>>, comma: bool)
    requires members != []
    ensures MemberTokens(members, comma) != []
  {
    hide Tokens;
  }

  lemma {:induction false} MembersWritten<N>(text: string, pos: nat, nesting: nat, codec: Codec<N>, names: set<string>)
    returns (members: seq<Entry<N>>, comma: bool)
    requires pos <= |text| && SkipSpace(text, pos) == pos && MembersClosed(text, pos, nesting, codec, names).Some?
    ensures members != [] && AllNamed(members)
    ensures var (ms, end) := MembersClosed(text, pos, nesting, codec, names).value;
            && Lex(text, pos, MemberTokens(members, comma), codec) == Some(end)
            && MembersOf(members) == ms && MembersFit(ms, names, MAX_NESTING - nesting)
    decreases |text| - pos, 2
  {
    hide *;
    MembersStep(text, pos, nesting, codec, names);
    var (ms, last) := MembersClosed(text, pos, nesting, codec, names).value;
    var name, after, pieces := NameWritten<N>(text, pos, codec);
    SignInside(text, after);
    var value := SkipSpace(text, after) + 1;
    var (v, end) := ParseValue(text, value, nesting, codec).value;
    var tree := ValueWritten(text, value, nesting, codec);
    WritesIs(tree, text, value, end, v, codec);
    var p := SkipSpace(text, end);
    SignInside(text, end);
    AfterMemberIs(text, end, Member(name, v), nesting, codec, names);
    var entry := Entry(pieces, tree);
    if At(text, p) == '}' || At(text, SkipSpace(text, p + 1)) == '}' {
      members, comma := [entry], At(text, p) != '}';
      LexMembers(text, pos, members, comma, codec);
      LexRestOf(text, end, members, comma, codec);
      LexClosing(text, end, "}", comma, codec);
      OneMemberFits(entry, names, MAX_NESTING - nesting);
    } else {
      var more;
      var q := SkipSpace(text, p + 1);
      SkipStops(text, p + 1);
      BehindIs(Member(name, v), MembersClosed(text, q, nesting, codec, names + {name}));
      more, comma := MembersWritten(text, q, nesting, codec, names + {name});
      members := [entry] + more;
      OneMoreMember(entry, more, names, MAX_NESTING - nesting);
      LexMembers(text, pos, members, comma, codec);
      LexRestOf(text, end, members, comma, codec);
      ObjectNotEmpty(more, comma);
      LexSkips(text, p + 1, MemberTokens(more, comma), codec);
    }
  }

  lemma NameWritten<N>(text: string, pos: nat, codec: Codec<N>) returns (name: string, after: nat, pieces: seq<Piece>)
    requires pos <= |text| && SkipSpace(text, pos) == pos && ParseQuoted(text, pos).Some?
    ensures AllAllowed(pieces) && ParseQuoted(text, pos) == Some((name, after)) && name == MeanAll(pieces)
    ensures TokenEnd(text, SkipSpace(text, pos), Str(pieces), codec) == Some(after)
  {
    hide ParseQuoted, MeanAll, AllAllowed, InQuotes, SkipSpace;
    pieces := QuotedSpelled(text, pos);
    name, after := MeanAll(pieces), pos + |InQuotes(pieces)|;
  }

  lemma OneMemberFits<N>(entry: Entry<N>, names: set<string>, room: int)
    requires AllAllowed(entry.name) && Proper(entry.tree)
    ensures AllNamed([entry])
    ensures var m := Member(MeanAll(entry.name), ValueOf(entry.tree));
            && MembersOf([entry]) == [m]
            && (Fits(m.value, room) && NUL !in m.name && m.name !in names ==> MembersFit([m], names, room))
  {
    hide Proper, ValueOf, Fits, MeanAll, AllAllowed;
  }

  lemma OneMoreMember<N>(entry: Entry<N>, more: seq<Entry<N>>, names: set<string>, room: int)
    requires AllAllowed(entry.name) && Proper(entry.tree) && AllNamed(more)
    ensures AllNamed([entry] + more) && ([entry] + more)[1..] == more
    ensures var m := Member(MeanAll(entry.name), ValueOf(entry.tree));
            && MembersOf([entry] + more) == [m] + MembersOf(more)
            && (Fits(m.value, room) && NUL !in m.name && m.name !in names && MembersFit(MembersOf(more), names + {m.name}, room) ==>
                  MembersFit([m] + MembersOf(more), names, room))
  {
    hide Proper, ValueOf, Fits, MeanAll, AllAllowed, MembersFit;
    var m := Member(MeanAll(entry.name), ValueOf(entry.tree));
    FirstMemberFits([m] + MembersOf(more), names, room);
    assert ([m] + MembersOf(more))[1..] == MembersOf(more);
  }

  // ------------------------------------------------------------ what has been written is parsed

  /** What a value begins with closes nothing. */
  lemma TreeBegins<N>(tree: Tree<N>, text: string, pos: nat, end: nat, v: Json<N>, codec: Codec<N>)
    requires Writes(tree, text, pos, end, v, codec)
    ensures SkipSpace(text, pos) <= |text|
    ensures var c := At(text, SkipSpace(text, pos)); c != ']' && c != '}' && c != ',' && c != NUL
  {
    hide SkipSpace, ItemTokens, MemberTokens, ValueOf, Matches, Closed;
    var q := SkipSpace(text, pos);
    var token := Tokens(tree)[0];
    match token
    case Word(w) => MatchesFirst(text, q, w);
    case Str(pieces) => MatchesFirst(text, q, InQuotes(pieces));
    case Num(n) =>
  }

  /** What is written is parsed, if it nests no deeper than allowed and names are different in each object. */
  lemma {:induction false} WrittenParses<N>(tree: Tree<N>, text: string, pos: nat, end: nat, v: Json<N>, nesting: nat, codec: Codec<N>)
    requires Writes(tree, text, pos, end, v, codec) && Fits(v, MAX_NESTING - nesting)
    ensures ParseValue(text, pos, nesting, codec) == Some((v, end))
    decreases tree
  {
    hide *;
    WritesIs(tree, text, pos, end, v, codec);
    var q := SkipSpace(text, pos);
    WritesSkips(tree, text, pos, end, v, codec);
    SkipStops(text, pos);
    ValueAfterSpace(text, pos, q, nesting, codec);
    FitsIs(v, MAX_NESTING - nesting);
    TreeIs(tree);
    match tree
    case Leaf(token) => LeafParses(token, text, q, end, v, nesting, codec);
    case Items(items, comma) =>
      BracketWritten(tree, text, q, end, v, codec);
      ByFirst(text, q, nesting, codec);
      ArrayStep(text, q, nesting + 1, codec);
      if items == [] {
        EmptyParses(tree, text, q, end, v, codec);
      } else {
        ItemsAre(text, q, items, comma, end, codec);
        SkipStops(text, q + 1);
        ItemsParsed(items, comma, text, SkipSpace(text, q + 1), end, nesting + 1, codec);
      }
    case Members(members, comma) =>
      BracketWritten(tree, text, q, end, v, codec);
      ByFirst(text, q, nesting, codec);
      ObjectStep(text, q, nesting + 1, codec);
      if members == [] {
        EmptyParses(tree, text, q, end, v, codec);
      } else {
        MembersAre(text, q, members, comma, end, codec);
        SkipStops(text, q + 1);
        MembersParsed(members, comma, text, SkipSpace(text, q + 1), end, nesting + 1, codec, {});
      }
  }

  /** What arrays and objects are made of. */
  lemma TreeIs<N>(tree: Tree<N>)
    requires Proper(tree)
    ensures tree.Items? ==> AllProper(tree.items) && ValueOf(tree) == Array(ValuesOf(tree.items))
    ensures tree.Members? ==> AllNamed(tree.members) && ValueOf(tree) == Object(MembersOf(tree.members))
    ensures tree.Leaf? ==> !ValueOf(tree).Array? && !ValueOf(tree).Object?
  {
    hide ValuesOf, MembersOf, AllProper, AllNamed, MeanAll, AllAllowed;
  }

  lemma BracketWritten<N>(tree: Tree<N>, text: string, q: nat, end: nat, v: Json<N>, codec: Codec<N>)
    requires Writes(tree, text, q, end, v, codec) && SkipSpace(text, q) == q && !tree.Leaf?
    ensures q < |text| && At(text, q) == if tree.Items? then '[' else '{'
  {
    hide SkipSpace, ItemTokens, MemberTokens, ValueOf, Matches, Lex;
    var open := if tree.Items? then "[" else "{";
    assert Tokens(tree) == [Word(open)] + Tokens(tree)[1..];
    LexSign(text, q, open, Tokens(tree)[1..], codec);
  }

  lemma EmptyParses<N>(tree: Tree<N>, text: string, q: nat, end: nat, v: Json<N>, codec: Codec<N>)
    requires Writes(tree, text, q, end, v, codec) && SkipSpace(text, q) == q && q < |text|
    ensures tree.Items? && tree.items == [] ==> v == Array([]) && At(text, SkipSpace(text, q + 1)) == ']' && end == SkipSpace(text, q + 1) + 1
    ensures tree.Members? && tree.members == [] ==> v == Object([]) && At(text, SkipSpace(text, q + 1)) == '}' && end == SkipSpace(text, q + 1) + 1
  {
    hide SkipSpace, Lex, Matches, MeanAll, AllAllowed;
    if tree.Items? && tree.items == [] {
      LexSign(text, q, "[", [Word("]")], codec);
      LexSigns(text, q + 1, "]", codec);
    } else if tree.Members? && tree.members == [] {
      LexSign(text, q, "{", [Word("}")], codec);
      LexSigns(text, q + 1, "}", codec);
    }
  }

  lemma LeafParses<N>(token: Token<N>, text: string, q: nat, end: nat, v: Json<N>, nesting: nat, codec: Codec<N>)
    requires Writes(Leaf(token), text, q, end, v, codec) && SkipSpace(text, q) == q && nesting <= MAX_NESTING
    ensures ParseValue(text, q, nesting, codec) == Some((v, end))
  {
    hide SkipSpace, ParseArray, ParseObject, ParseQuoted, Matches, MeanAll, AllAllowed, Closed;
    LexOne(text, q, token, codec);
    match token
    case Word(w) =>
      MatchesFirst(text, q, w);
      OneWord(text, q);
    case Str(pieces) =>
      MatchesFirst(text, q, InQuotes(pieces));
      SpelledParses(text, q, pieces);
    case Num(n) =>
  }

  lemma OneWord(text: string, q: nat)
    ensures Matches(text, q, "true") ==> !Matches(text, q, "false")
  {
    if Matches(text, q, "true") && Matches(text, q, "false") {
      MatchesAt(text, q, "true", 0);
      MatchesAt(text, q, "false", 0);
    }
  }

  lemma {:induction false} ItemsParsed<N>(items: seq<Tree<N>>, comma: bool, text: string, pos: nat, end: nat, nesting: nat, codec: Codec<N>)
    requires pos <= |text| && SkipSpace(text, pos) == pos && items != [] && AllProper(items)
    requires Lex(text, pos, ItemTokens(items, comma), codec) == Some(end) && AllFit(ValuesOf(items), MAX_NESTING - nesting)
    ensures At(text, pos) != ']' && ItemsClosed(text, pos, nesting, codec) == Some((ValuesOf(items), end))
    decreases items
  {
    hide *;
    FirstOf(items);
    var tree, v := items[0], ValueOf(items[0]);
    FirstFits(ValuesOf(items), MAX_NESTING - nesting);
    assert ValuesOf(items)[0] == v && ValuesOf(items)[1..] == ValuesOf(items[1..]);
    LexItems(text, pos, items, comma, codec);
    var at := Lex(text, pos, Tokens(tree), codec).value;
    WritesHow(tree, text, pos, at, codec);
    TreeBegins(tree, text, pos, at, v, codec);
    WrittenParses(tree, text, pos, at, v, nesting, codec);
    ItemsStep(text, pos, nesting, codec);
    SignInside(text, at);
    var p := SkipSpace(text, at);
    if |items| == 1 {
      LexClosing(text, at, "]", comma, codec);
      assert ValuesOf(items) == [v];
    } else {
      var q := SkipSpace(text, p + 1);
      SkipStops(text, p + 1);
      SignInside(text, p + 1);
      ListNotEmpty(items[1..], comma);
      LexSkips(text, p + 1, ItemTokens(items[1..], comma), codec);
      ItemsParsed(items[1..], comma, text, q, end, nesting, codec);
      BehindIs(v, ItemsClosed(text, q, nesting, codec));
    }
  }

  lemma BehindIs<T>(first: T, rest: Parsed<seq<T>>)
    ensures rest.None? ==> Behind(first, rest).None?
    ensures rest.Some? ==> Behind(first, rest) == Some(([first] + rest.value.0, rest.value.1))
  {}

  lemma WritesHow<N>(tree: Tree<N>, text: string, pos: nat, end: nat, codec: Codec<N>)
    requires pos <= |text| && Proper(tree) && Lex(text, pos, Tokens(tree), codec) == Some(end)
    ensures end <= |text| && Writes(tree, text, pos, end, ValueOf(tree), codec)
  {
    hide Lex, Tokens, ValueOf, Proper;
  }

  lemma {:induction false} MembersParsed<N>(members: seq<Entry<N>>, comma: bool, text: string, pos: nat, end: nat, nesting: nat, codec: Codec<N>,
                                            names: set<string>)
    requires pos <= |text| && SkipSpace(text, pos) == pos && members != [] && AllNamed(members)
    requires Lex(text, pos, MemberTokens(members, comma), codec) == Some(end) && MembersFit(MembersOf(members), names, MAX_NESTING - nesting)
    ensures At(text, pos) != '}' && MembersClosed(text, pos, nesting, codec, names) == Some((MembersOf(members), end))
    decreases members
  {
    hide *;
    FirstNamed(members);
    var tree, v, name := members[0].tree, ValueOf(members[0].tree), MeanAll(members[0].name);
    FirstMemberFits(MembersOf(members), names, MAX_NESTING - nesting);
    assert MembersOf(members)[0] == Member(name, v) && MembersOf(members)[1..] == MembersOf(members[1..]);
    LexMembers(text, pos, members, comma, codec);
    var after := NameParses(text, pos, members[0].name, codec);
    SignInside(text, after);
    var value := SkipSpace(text, after) + 1;
    var at := Lex(text, value, Tokens(tree), codec).value;
    LexRestOf(text, at, members, comma, codec);
    WritesHow(tree, text, value, at, codec);
    WrittenParses(tree, text, value, at, v, nesting, codec);
    MembersStep(text, pos, nesting, codec, names);
    AfterMemberIs(text, at, Member(name, v), nesting, codec, names);
    SignInside(text, at);
    var p := SkipSpace(text, at);
    if |members| == 1 {
      LexClosing(text, at, "}", comma, codec);
      assert MembersOf(members) == [Member(name, v)];
    } else {
      var q := SkipSpace(text, p + 1);
      SkipStops(text, p + 1);
      SignInside(text, p + 1);
      ObjectNotEmpty(members[1..], comma);
      LexSkips(text, p + 1, MemberTokens(members[1..], comma), codec);
      MembersParsed(members[1..], comma, text, q, end, nesting, codec, names + {name});
      BehindIs(Member(name, v), MembersClosed(text, q, nesting, codec, names + {name}));
    }
  }

  lemma NameParses<N>(text: string, pos: nat, pieces: seq<Piece>, codec: Codec<N>) returns (after: nat)
    requires pos <= |text| && SkipSpace(text, pos) == pos && AllAllowed(pieces) && TokenEnd(text, pos, Str(pieces), codec).Some?
    ensures TokenEnd(text, pos, Str(pieces), codec) == Some(after) && after <= |text|
    ensures ParseQuoted(text, pos) == Some((MeanAll(pieces), after)) && At(text, pos) != '}'
  {
    hide SkipSpace, ParseQuoted, Matches, MeanAll, AllAllowed, Closed;
    after := TokenEnd(text, pos, Str(pieces), codec).value;
    MatchesFirst(text, pos, InQuotes(pieces));
    SpelledParses(text, pos, pieces);
  }

  // --------------------------------------------------------------------------- whole texts

  /** A byte order mark. */
  const MARK: string := [0xEF as char, 0xBB as char, 0xBF as char]

  /** Where a text begins, behind a byte order mark. */
  function Start(text: string): (start: nat)
    ensures start <= |text|
  {
    if |text| >= 3 && text[..3] == MARK then 3 else 0
  }

  /** The parser takes a value from a place exactly when it is written there, nests no deeper than allowed and has no name twice. */
  lemma ValueAccepted<N>(text: string, pos: nat, nesting: nat, codec: Codec<N>, v: Json<N>, end: nat)
    requires pos <= |text|
    ensures ParseValue(text, pos, nesting, codec) == Some((v, end))
       <==> Fits(v, MAX_NESTING - nesting) && exists tree :: Writes(tree, text, pos, end, v, codec)
  {
    hide *;
    if ParseValue(text, pos, nesting, codec) == Some((v, end)) {
      var tree := ValueWritten(text, pos, nesting, codec);
    }
    if Fits(v, MAX_NESTING - nesting) && exists tree :: Writes(tree, text, pos, end, v, codec) {
      var tree :| Writes(tree, text, pos, end, v, codec);
      WrittenParses(tree, text, pos, end, v, nesting, codec);
    }
  }

  /**
   * A text parses to a value exactly when it begins with that value, written as the grammar says,
   * the value nests at most 2048 deep, and the names in each of its objects are different and hold no NUL.
   */
  lemma TextAccepted<N>(text: string, codec: Codec<N>, v: Json<N>)
    ensures ParseText(text, codec) == Some(v)
       <==> WellFormed(v) && NestsWithin(v, 2048) && exists tree, end :: Writes(tree, text, Start(text), end, v, codec)
  {
    hide Writes, ParseValue, WellFormed, NestsWithin;
    BeginsMarked(text);
    var r := ParseValue(text, Start(text), 0, codec);
    if r.Some? {
      ValueAccepted(text, Start(text), 0, codec, r.value.0, r.value.1);
    }
    if WellFormed(v) && NestsWithin(v, 2048) && exists tree, end :: Writes(tree, text, Start(text), end, v, codec) {
      var tree, end :| Writes(tree, text, Start(text), end, v, codec);
      ValueAccepted(text, Start(text), 0, codec, v, end);
    }
  }

  lemma BeginsMarked(text: string)
    ensures Start(text) == 3 <==> At(text, 0) == 0xEF as char && At(text, 1) == 0xBB as char && At(text, 2) == 0xBF as char
  {
    if |text| >= 3 {
      assert text[..3] == [text[0], text[1], text[2]];
    }
  }

  /** A comma behind the last item is accepted. */
  lemma CommaBehindLast<N>(codec: Codec<N>)
    ensures ParseText("[true,]", codec) == Some(Array([Boolean(true)]))
  {
    hide ParseValue, ParseArray, ParseItems, SkipSpace, ItemsClosed;
    var text := "[true,]";
    NoSpace(text);
    TrueParses(text, codec);
    ItemsStep(text, 1, 1, codec);
    ArrayStep(text, 0, 1, codec);
    ByFirst(text, 0, 0, codec);
  }

  lemma NoSpace(text: string)
    requires text == "[true,]"
    ensures SkipSpace(text, 0) == 0 && SkipSpace(text, 1) == 1 && SkipSpace(text, 5) == 5 && SkipSpace(text, 6) == 6
  {}

  lemma TrueParses<N>(text: string, codec: Codec<N>)
    requires text == "[true,]"
    ensures ParseValue(text, 1, 1, codec) == Some((Boolean(true), 5))
  {
    NoSpace(text);
    hide SkipSpace, ParseArray, ParseObject, ParseQuoted;
    assert text[1..5] == "true";
  }
}
