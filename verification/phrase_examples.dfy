/** The worked examples in the doc comments of `get_phrase` (macros.rb lines
    200-204, dandy.rb lines 175-179), and behaviours that follow from its
    algorithm although no comment mentions them. */
module PhraseExamples {

  import opened Wrappers
  import opened RubyString
  import opened PhraseResolver

  // ---------------------------------------------------------------------
  // Evaluation helpers
  // ---------------------------------------------------------------------

  lemma TallyOne(a: Option<string>, t: Option<string>)
    ensures TallyColumn([a], t) == if Accepts(a, t) then Tally(a, 1) else Tally(None, 0)
  {
    assert [a][..0] == [];
  }

  lemma TallyTwo(a: Option<string>, b: Option<string>, t: Option<string>)
    ensures var first := TallyColumn([a], t);
            TallyColumn([a, b], t) ==
              if Accepts(b, t) && first.candidate != b then Tally(b, first.count + 1) else first
  {
    assert [a, b][..1] == [a];
  }

  lemma MatchedOne(cols: seq<Column>, tokens: seq<string>)
    requires |cols| == 1
    ensures var w0 := ColumnWord(cols, tokens, 0);
            Matched(cols, tokens, 1) == (if w0.Some? then [w0.value] else [])
  {
    assert Matched(cols, tokens, 0) == [];
  }

  lemma MatchedTwo(cols: seq<Column>, tokens: seq<string>)
    requires |cols| == 2
    ensures var w0 := ColumnWord(cols, tokens, 0);
            var w1 := ColumnWord(cols, tokens, 1);
            Matched(cols, tokens, 2) == (if w0.Some? then [w0.value] else []) + (if w1.Some? then [w1.value] else [])
  {
    assert Matched(cols, tokens, 0) == [];
  }

  lemma WordIsOwnSplit(w: string)
    requires IsWord(w)
    ensures Words(w) == [w]
  {
    assert Join([w], " ") == w;
    WordsOfJoin([w]);
  }

  lemma PrefixTransitive(x: string, a: string, c: string)
    requires x <= a && a <= c
    ensures x <= c
  {
    assert c[..|x|] == a[..|x|];
  }

  lemma TwoWordPhrase(a: string, b: string)
    requires IsWord(a) && IsWord(b)
    ensures Words(a + " " + b) == [a, b]
  {
    assert Join([a, b], " ") == a + " " + b;
    assert Join([a, b], " ") == a + " " + b;
    WordsOfJoin([a, b]);
  }

  // ---------------------------------------------------------------------
  // The columns of small phrase lists
  // ---------------------------------------------------------------------

  lemma RotateOneByTwo(p: string, a: string, b: string)
    requires Words(p) == [a, b]
    ensures Rotate([p]) == [[Some(a)], [Some(b)]]
  {
    assert |Words([p][0])| == 2;
    RotateShape([p], 2);
    var cols := Rotate([p]);
    assert cols[0] == [Some(a)];
    assert cols[1] == [Some(b)];
  }

  lemma RotateTwoByOne(a: string, b: string)
    requires Words(a) == [a] && Words(b) == [b]
    ensures Rotate([a, b]) == [[Some(a), Some(b)]]
  {
    assert |Words([a, b][0])| == 1;
    RotateShape([a, b], 1);
    var cols := Rotate([a, b]);
    assert cols[0] == [Some(a), Some(b)];
  }

  lemma RotateTwoByTwo(p1: string, p2: string, a1: string, b1: string, a2: string, b2: string)
    requires Words(p1) == [a1, b1] && Words(p2) == [a2, b2]
    ensures Rotate([p1, p2]) == [[Some(a1), Some(a2)], [Some(b1), Some(b2)]]
  {
    assert |Words([p1, p2][0])| == 2;
    RotateShape([p1, p2], 2);
    var cols := Rotate([p1, p2]);
    assert cols[0] == [Some(a1), Some(a2)];
    assert cols[1] == [Some(b1), Some(b2)];
  }

  lemma RotateLongAndShort(p: string, c: string, a: string, b: string)
    requires Words(p) == [a, b] && Words(c) == [c]
    ensures Rotate([p, c]) == [[Some(a), Some(c)], [Some(b), None]]
  {
    assert |Words([p, c][0])| == 2;
    RotateShape([p, c], 2);
    var cols := Rotate([p, c]);
    assert cols[0] == [Some(a), Some(c)];
    assert cols[1] == [Some(b), None];
  }

  // ---------------------------------------------------------------------
  // Stage 1 over those columns
  // ---------------------------------------------------------------------

  lemma StageOneOfColumns(command: string, phrases: seq<string>, cols: seq<Column>, ws: seq<string>)
    requires |phrases| > 0 && Rotate(phrases) == cols
    requires Matched(cols, Words(command), |cols|) == ws
    ensures StageOne(command, phrases) == ws
  {
  }

  lemma OnePhraseColumns(a: string, b: string, x: string, y: string)
    requires a != b && x <= a && !(y <= b)
    ensures Matched([[Some(a)], [Some(b)]], [x, y], 2) == [a]
  {
    var cols: seq<Column> := [[Some(a)], [Some(b)]];
    DistinctColumnsAlign(cols, 0);
    DistinctColumnsAlign(cols, 1);
    TallyOne(Some(a), Some(x));
    TallyOne(Some(b), Some(y));
    MatchedTwo(cols, [x, y]);
  }

  lemma FirstWordColumns(a: string, b: string, tokens: seq<string>)
    requires |tokens| > 0 && tokens[0] <= a && !(tokens[0] <= b)
    ensures Matched([[Some(a), Some(b)]], tokens, 1) == [a]
  {
    var cols: seq<Column> := [[Some(a), Some(b)]];
    assert Piece(tokens, 0) == Some(tokens[0]);
    DistinctColumnsAlign(cols, 0);
    TallyOne(Some(a), Some(tokens[0]));
    TallyTwo(Some(a), Some(b), Some(tokens[0]));
    MatchedOne(cols, tokens);
  }

  lemma AmbiguousColumns(a: string, b: string, x: string)
    requires a != b && x <= a && x <= b
    ensures Matched([[Some(a), Some(b)]], [x], 1) == []
  {
    var cols: seq<Column> := [[Some(a), Some(b)]];
    DistinctColumnsAlign(cols, 0);
    TallyOne(Some(a), Some(x));
    TallyTwo(Some(a), Some(b), Some(x));
    MatchedOne(cols, [x]);
  }

  lemma LongAndShortColumns(a: string, b: string, c: string, tokens: seq<string>)
    requires |tokens| >= 2 && tokens[0] <= a && !(tokens[0] <= c) && !(tokens[1] <= b)
    ensures Matched([[Some(a), Some(c)], [Some(b), None]], tokens, 2) == [a]
  {
    var cols: seq<Column> := [[Some(a), Some(c)], [Some(b), None]];
    assert Piece(tokens, 0) == Some(tokens[0]) && Piece(tokens, 1) == Some(tokens[1]);
    DistinctColumnsAlign(cols, 0);
    DistinctColumnsAlign(cols, 1);
    TallyOne(Some(a), Some(tokens[0]));
    TallyTwo(Some(a), Some(c), Some(tokens[0]));
    TallyOne(Some(b), Some(tokens[1]));
    TallyTwo(Some(b), None, Some(tokens[1]));
    MatchedTwo(cols, tokens);
  }

  lemma SharedColumns(a1: string, a2: string, c: string, x: string)
    requires a1 != a2 && x <= a1 && x <= a2
    ensures Matched([[Some(a1), Some(a2)], [Some(c), Some(c)]], [x, c], 2) == [c]
  {
    var cols: seq<Column> := [[Some(a1), Some(a2)], [Some(c), Some(c)]];
    DistinctColumnsAlign(cols, 0);
    DistinctColumnsAlign(cols, 1);
    TallyOne(Some(a1), Some(x));
    TallyTwo(Some(a1), Some(a2), Some(x));
    TallyOne(Some(c), Some(c));
    TallyTwo(Some(c), Some(c), Some(c));
    MatchedTwo(cols, [x, c]);
  }

  lemma RepeatedColumns(a: string, x: string)
    requires x <= a
    ensures Matched([[Some(a)], [Some(a)]], [x], 2) == [a, a]
  {
    var cols: seq<Column> := [[Some(a)], [Some(a)]];
    assert FirstEqual(cols, 1) == 0;
    TallyOne(Some(a), Some(x));
    MatchedTwo(cols, [x]);
  }

  // ---------------------------------------------------------------------
  // Generic shapes of the examples
  // ---------------------------------------------------------------------

  /** The fallback step on its own: stage 1 gave `ws`, which is not a
      phrase but starts exactly one. */
  lemma FallbackUnique(command: string, phrases: seq<string>, ws: seq<string>, q: string, rest: seq<string>)
    requires |phrases| > 0 && NoNul(phrases)
    requires StageOne(command, phrases) == ws && |ws| <= |Words(command)| && Words(command)[|ws|..] == rest
    requires Join(ws, " ") !in phrases && Prefixed(phrases, Join(ws, " ")) == [q]
    ensures GetPhrase(command, phrases) == Success(Resolution(q, Join(rest, " ")))
  {
    ResolutionByStages(command, phrases);
  }

  /** The exact step on its own: stage 1 gave `ws`, which is a phrase. */
  lemma ExactPhrase(command: string, phrases: seq<string>, ws: seq<string>, rest: seq<string>)
    requires |phrases| > 0 && NoNul(phrases)
    requires StageOne(command, phrases) == ws && |ws| <= |Words(command)| && Words(command)[|ws|..] == rest
    requires Join(ws, " ") in phrases
    ensures GetPhrase(command, phrases) == Success(Resolution(Join(ws, " "), Join(rest, " ")))
  {
    ResolutionByStages(command, phrases);
  }

  /** The give-up step on its own: stage 1 gave `ws`, which is not a phrase
      and starts no phrase or several. */
  lemma NoUniquePhrase(command: string, phrases: seq<string>, ws: seq<string>)
    requires |phrases| > 0 && NoNul(phrases)
    requires StageOne(command, phrases) == ws && |ws| <= |Words(command)|
    requires Join(ws, " ") !in phrases && |Prefixed(phrases, Join(ws, " "))| != 1
    ensures GetPhrase(command, phrases) == Success(Resolution("", command))
  {
    ResolutionByStages(command, phrases);
  }

  lemma OnePhrasePrefixed(p: string, a: string, b: string)
    requires p == a + " " + b && IsWord(a)
    ensures Join([a], " ") == a && a !in [p] && Prefixed([p], a) == [p]
  {
    assert p[|a|] == ' ';
    assert a != p;
  }

  /** One two-word phrase; the first token starts its first word, the second
      token does not start its second word. */
  lemma OnePhrasePartialMatch(command: string, p: string, a: string, b: string, x: string, y: string)
    requires Words(command) == [x, y] && p == a + " " + b
    requires IsWord(a) && IsWord(b) && a != b && NoNul([p])
    requires x <= a && !(y <= b)
    ensures GetPhrase(command, [p]) == Success(Resolution(p, y))
  {
    TwoWordPhrase(a, b);
    RotateOneByTwo(p, a, b);
    OnePhraseColumns(a, b, x, y);
    StageOneOfColumns(command, [p], [[Some(a)], [Some(b)]], [a]);
    OnePhrasePrefixed(p, a, b);
    assert [x, y][1..] == [y];
    assert Join([y], " ") == y;
    FallbackUnique(command, [p], [a], p, [y]);
  }

  /** Two one-word phrases; the first token starts only the first. */
  lemma TwoWordsFirstMatches(command: string, a: string, b: string, x: string, rest: seq<string>)
    requires Words(command) == [x] + rest
    requires IsWord(a) && IsWord(b) && NoNul([a, b])
    requires x <= a && !(x <= b)
    ensures GetPhrase(command, [a, b]) == Success(Resolution(a, Join(rest, " ")))
  {
    WordIsOwnSplit(a);
    WordIsOwnSplit(b);
    RotateTwoByOne(a, b);
    FirstWordColumns(a, b, [x] + rest);
    StageOneOfColumns(command, [a, b], [[Some(a), Some(b)]], [a]);
    assert Join([a], " ") == a;
    assert ([x] + rest)[1..] == rest;
    ExactPhrase(command, [a, b], [a], rest);
  }

  lemma TwoPhrasesPrefixed(p: string, a: string, b: string, c: string, x: string)
    requires p == a + " " + b && IsWord(a) && IsWord(c)
    requires x <= a && !(x <= c)
    ensures Join([a], " ") == a && a !in [p, c] && Prefixed([p, c], a) == [p]
  {
    if a <= c {
      PrefixTransitive(x, a, c);
    }
    assert p[|a|] == ' ';
    assert a != p && a != c;
    assert Prefixed([c], a) == [];
  }

  lemma TwoPhrasesStageOne(command: string, p: string, a: string, b: string, c: string, x: string, y: string, rest: seq<string>)
    requires Words(command) == [x, y] + rest && p == a + " " + b
    requires IsWord(a) && IsWord(b) && IsWord(c)
    requires x <= a && !(x <= c) && !(y <= b)
    ensures StageOne(command, [p, c]) == [a]
    ensures 1 <= |Words(command)| && Words(command)[1..] == [y] + rest
  {
    TwoWordPhrase(a, b);
    WordIsOwnSplit(c);
    RotateLongAndShort(p, c, a, b);
    TwoLeadingTokens(x, y, rest);
    LongAndShortColumns(a, b, c, [x, y] + rest);
    StageOneOfColumns(command, [p, c], [[Some(a), Some(c)], [Some(b), None]], [a]);
  }

  lemma TwoLeadingTokens(x: string, y: string, rest: seq<string>)
    ensures |[x, y] + rest| >= 2
    ensures ([x, y] + rest)[0] == x && ([x, y] + rest)[1] == y
    ensures ([x, y] + rest)[1..] == [y] + rest
  {
  }

  /** A two-word and a one-word phrase; the first token starts only the
      first word of the two-word phrase, the second token does not start its
      second word. */
  lemma TwoPhrasesFallback(command: string, p: string, a: string, b: string, c: string, x: string, y: string, rest: seq<string>)
    requires Words(command) == [x, y] + rest && p == a + " " + b
    requires IsWord(a) && IsWord(b) && IsWord(c) && NoNul([p, c])
    requires x <= a && !(x <= c) && !(y <= b)
    ensures GetPhrase(command, [p, c]) == Success(Resolution(p, Join([y] + rest, " ")))
  {
    TwoPhrasesStageOne(command, p, a, b, c, x, y, rest);
    TwoPhrasesPrefixed(p, a, b, c, x);
    FallbackUnique(command, [p, c], [a], p, [y] + rest);
  }

  /** Two one-word phrases that the only token starts both of. */
  lemma TwoWordsAmbiguous(command: string, a: string, b: string, x: string)
    requires Words(command) == [x]
    requires IsWord(a) && IsWord(b) && a != b && NoNul([a, b])
    requires x <= a && x <= b
    ensures GetPhrase(command, [a, b]) == Success(Resolution("", command))
  {
    WordIsOwnSplit(a);
    WordIsOwnSplit(b);
    RotateTwoByOne(a, b);
    AmbiguousColumns(a, b, x);
    StageOneOfColumns(command, [a, b], [[Some(a), Some(b)]], []);
    assert Join([], " ") == "";
    assert Prefixed([b], "") == [b];
    assert Prefixed([a, b], "") == [a, b];
    NoUniquePhrase(command, [a, b], []);
  }

  /** Two two-word phrases with the same second word, whose first words the
      first token both starts. */
  lemma SharedLastWord(command: string, p1: string, p2: string, a1: string, a2: string, c: string, x: string)
    requires Words(command) == [x, c] && p1 == a1 + " " + c && p2 == a2 + " " + c
    requires IsWord(a1) && IsWord(a2) && IsWord(c) && a1 != a2
    requires NoNul([p1, p2])
    requires x <= a1 && x <= a2
    requires !(c <= p1) && !(c <= p2)
    ensures GetPhrase(command, [p1, p2]) == Success(Resolution("", command))
  {
    TwoWordPhrase(a1, c);
    TwoWordPhrase(a2, c);
    RotateTwoByTwo(p1, p2, a1, c, a2, c);
    SharedColumns(a1, a2, c, x);
    StageOneOfColumns(command, [p1, p2], [[Some(a1), Some(a2)], [Some(c), Some(c)]], [c]);
    assert Join([c], " ") == c;
    assert Prefixed([p2], c) == [];
    assert Prefixed([p1, p2], c) == [];
    NoUniquePhrase(command, [p1, p2], [c]);
  }

  /** A phrase made of one word twice, against a one-token command. */
  lemma RepeatedWord(command: string, p: string, a: string, x: string)
    requires Words(command) == [x] && p == a + " " + a
    requires IsWord(a) && NoNul([p])
    requires x <= a
    ensures GetPhrase(command, [p]).Failure?
  {
    TwoWordPhrase(a, a);
    RotateOneByTwo(p, a, a);
    RepeatedColumns(a, x);
    StageOneOfColumns(command, [p], [[Some(a)], [Some(a)]], [a, a]);
    ResolutionByStages(command, [p]);
  }

  // ---------------------------------------------------------------------
  // The documented examples
  // ---------------------------------------------------------------------

  lemma FooBarTokens()
    ensures Words("fo baz") == ["fo", "baz"]
  {
    assert Join(["fo", "baz"], " ") == "fo baz";
    WordsOfJoin(["fo", "baz"]);
  }

  lemma FooBarWords()
    ensures "foo bar" == "foo" + " " + "bar"
    ensures IsWord("foo") && IsWord("bar") && NoNul(["foo bar"])
    ensures "fo" <= "foo" && !("baz" <= "bar")
  {
    assert "baz"[2] != "bar"[2];
  }

  /** `get_phrase("fo baz", ["foo bar"])` is `["foo bar", "baz"]`: stage 1
      takes "foo" only, and the fallback expands it to the whole phrase. */
  lemma FooBarExample()
    ensures GetPhrase("fo baz", ["foo bar"]) == Success(Resolution("foo bar", "baz"))
  {
    FooBarTokens();
    FooBarWords();
    OnePhrasePartialMatch("fo baz", "foo bar", "foo", "bar", "fo", "baz");
  }

  lemma KnightTokens()
    ensures Words("k roll 1d6") == ["k"] + ["roll", "1d6"]
  {
    assert Join(["k", "roll", "1d6"], " ") == "k roll 1d6";
    WordsOfJoin(["k", "roll", "1d6"]);
  }

  lemma KnightWords()
    ensures Join(["roll", "1d6"], " ") == "roll 1d6"
    ensures IsWord("knight") && IsWord("priest") && NoNul(["knight", "priest"])
    ensures "k" <= "knight" && !("k" <= "priest")
  {
    assert "priest"[0] != 'k';
  }

  /** `get_phrase("k roll 1d6", ["knight", "priest"])` is
      `["knight", "roll 1d6"]`. */
  lemma KnightExample()
    ensures GetPhrase("k roll 1d6", ["knight", "priest"]) == Success(Resolution("knight", "roll 1d6"))
  {
    KnightTokens();
    KnightWords();
    TwoWordsFirstMatches("k roll 1d6", "knight", "priest", "k", ["roll", "1d6"]);
  }

  lemma DragonTokens()
    ensures Words("d roll 1d6") == ["d", "roll"] + ["1d6"]
  {
    assert Join(["d", "roll", "1d6"], " ") == "d roll 1d6";
    WordsOfJoin(["d", "roll", "1d6"]);
  }

  lemma DragonRest()
    ensures Join(["roll"] + ["1d6"], " ") == "roll 1d6"
  {
    assert ["roll"] + ["1d6"] == ["roll", "1d6"];
  }

  lemma DragonWords()
    ensures "dragon knight" == "dragon" + " " + "knight"
    ensures IsWord("dragon") && IsWord("knight") && IsWord("priest")
    ensures NoNul(["dragon knight", "priest"])
    ensures "d" <= "dragon" && !("d" <= "priest") && !("roll" <= "knight")
  {
    assert "priest"[0] != 'd';
    assert "knight"[0] != 'r';
  }

  /** `get_phrase("d roll 1d6", ["dragon knight", "priest"])` is
      `["dragon knight", "roll 1d6"]`: the fallback extends the one-word
      partial match while the remainder still drops only one token. */
  lemma DragonKnightExample()
    ensures GetPhrase("d roll 1d6", ["dragon knight", "priest"]) == Success(Resolution("dragon knight", "roll 1d6"))
  {
    DragonTokens();
    DragonRest();
    DragonWords();
    TwoPhrasesFallback("d roll 1d6", "dragon knight", "dragon", "knight", "priest", "d", "roll", ["1d6"]);
  }

  // ---------------------------------------------------------------------
  // Behaviours of the algorithm
  // ---------------------------------------------------------------------

  lemma KoboldFacts()
    ensures Words("k") == ["k"]
    ensures IsWord("knight") && IsWord("kobold") && NoNul(["knight", "kobold"])
    ensures "knight" != "kobold" && "k" <= "knight" && "k" <= "kobold"
  {
    assert Join(["k"], " ") == "k";
    WordsOfJoin(["k"]);
  }

  /** A token that starts two different words resolves to nothing, and the
      command comes back verbatim. */
  lemma AmbiguousPrefixExample()
    ensures GetPhrase("k", ["knight", "kobold"]) == Success(Resolution("", "k"))
  {
    KoboldFacts();
    TwoWordsAmbiguous("k", "knight", "kobold", "k");
  }

  lemma SharedWords()
    ensures "ab c" == "ab" + " " + "c" && "a c" == "a" + " " + "c"
    ensures IsWord("ab") && IsWord("a") && IsWord("c") && NoNul(["ab c", "a c"])
    ensures "a" <= "ab" && "a" <= "a" && !("c" <= "ab c") && !("c" <= "a c")
  {
    assert "ab c"[0] != 'c';
    assert "a c"[0] != 'c';
  }

  /** Typing a phrase exactly does not always find it: the first column is
      ambiguous, the scan goes on to the second column and accumulates only
      "c", which no phrase starts with. */
  lemma ExactPhraseMissedExample()
    ensures GetPhrase("a c", ["ab c", "a c"]) == Success(Resolution("", "a c"))
  {
    assert Join(["a", "c"], " ") == "a c";
    WordsOfJoin(["a", "c"]);
    SharedWords();
    SharedLastWord("a c", "ab c", "a c", "ab", "a", "c", "a");
  }

  lemma RepeatedFacts()
    ensures Words("a") == ["a"]
    ensures "a a" == "a" + " " + "a"
    ensures IsWord("a") && NoNul(["a a"])
  {
    assert Join(["a"], " ") == "a";
    WordsOfJoin(["a"]);
  }

  /** A phrase with a repeated word gives two equal columns; both read the
      first token, stage 1 accumulates two words from a one-token command,
      and `command.split[2..-1]` is `nil`, so `join` raises. */
  lemma RepeatedColumnRaisesExample()
    ensures GetPhrase("a", ["a a"]).Failure?
  {
    RepeatedFacts();
    RepeatedWord("a", "a a", "a", "a");
  }
}
