/** `Main#get_phrase` of macros.rb (lines 209-264) and dandy.rb (lines
    184-239); the two copies are identical. It maps a typed command to one of
    a list of known multi-word phrases plus the part of the command left over.

    Stage 1 splits every phrase into words and transposes them into columns.
    Column `i` is compared with the command token at the index of the FIRST
    column equal to it; it contributes its word when every word in it that
    starts with that token is the same word. Stage 2 falls back to the unique
    phrase that starts with what stage 1 accumulated. */
module PhraseResolver {

  import opened Wrappers
  import opened RubyString

  // ---------------------------------------------------------------------
  // Transposition (line 217)
  // ---------------------------------------------------------------------

  /** One transposed column: the `i`-th word of every phrase, `nil` for a
      phrase with fewer words. */
  type Column = seq<Option<string>>

  /** `tmp.map(&:length).max`. */
  function MaxLength(tmp: seq<seq<string>>): (n: nat)
    requires |tmp| > 0
    ensures forall j :: 0 <= j < |tmp| ==> |tmp[j]| <= n
    ensures exists j :: 0 <= j < |tmp| && |tmp[j]| == n
  {
    if |tmp| == 1 then |tmp[0]|
    else
      var m := MaxLength(tmp[1..]);
      if |tmp[0]| >= m then |tmp[0]| else m
  }

  function ColumnAt(tmp: seq<seq<string>>, i: nat): (col: Column)
    ensures |col| == |tmp|
  {
    seq(|tmp|, j requires 0 <= j < |tmp| => if i < |tmp[j]| then Some(tmp[j][i]) else None)
  }

  /** The word lists of the phrases, `phrases.map(&:split)`. */
  function Tokenized(phrases: seq<string>): (tmp: seq<seq<string>>)
    ensures |tmp| == |phrases|
    ensures forall j :: 0 <= j < |phrases| ==> tmp[j] == Words(phrases[j])
  {
    seq(|phrases|, j requires 0 <= j < |phrases| => Words(phrases[j]))
  }

  /** `rotated`: one column per word position up to the longest phrase. */
  function Rotate(phrases: seq<string>): (cols: seq<Column>)
    requires |phrases| > 0
  {
    var tmp := Tokenized(phrases);
    seq(MaxLength(tmp), i requires 0 <= i < MaxLength(tmp) => ColumnAt(tmp, i))
  }

  /** Some entry of the column is a word. */
  predicate SomeWord(col: Column) {
    exists j :: 0 <= j < |col| && col[j].Some?
  }

  /** `rotated` transposes the word lists: one column per word position up
      to the longest phrase, one entry per phrase, `nil` where a phrase has
      run out of words, and a word in every column. */
  lemma RotateShape(phrases: seq<string>, width: nat)
    requires |phrases| > 0
    requires forall j :: 0 <= j < |phrases| ==> |Words(phrases[j])| <= width
    requires exists j :: 0 <= j < |phrases| && |Words(phrases[j])| == width
    ensures |Rotate(phrases)| == width
    ensures forall i :: 0 <= i < width ==> |Rotate(phrases)[i]| == |phrases|
    ensures forall i, j :: 0 <= i < width && 0 <= j < |phrases| ==>
              Rotate(phrases)[i][j] == (if i < |Words(phrases[j])| then Some(Words(phrases[j])[i]) else None)
    ensures forall i :: 0 <= i < width ==> SomeWord(Rotate(phrases)[i])
  {
    var tmp := Tokenized(phrases);
    var m := MaxLength(tmp);
    var j :| 0 <= j < |phrases| && |Words(phrases[j])| == width;
    var k :| 0 <= k < |tmp| && |tmp[k]| == m;
    assert |tmp[j]| <= m && |tmp[k]| <= width;
    forall i | 0 <= i < width
      ensures SomeWord(Rotate(phrases)[i])
    {
      assert Rotate(phrases)[i] == ColumnAt(tmp, i);
      assert Rotate(phrases)[i][j].Some?;
    }
  }

  // ---------------------------------------------------------------------
  // `rotated.index(phrase)` (lines 224 / 199)
  // ---------------------------------------------------------------------

  function FirstEqualFrom(cols: seq<Column>, i: nat, from: nat): (j: nat)
    requires from <= i < |cols|
    requires forall k :: 0 <= k < from ==> cols[k] != cols[i]
    ensures from <= j <= i && cols[j] == cols[i]
    ensures forall k :: 0 <= k < j ==> cols[k] != cols[i]
    decreases i - from
  {
    if cols[from] == cols[i] then from else FirstEqualFrom(cols, i, from + 1)
  }

  /** The index of the first column equal to column `i`. */
  function FirstEqual(cols: seq<Column>, i: nat): (j: nat)
    requires i < |cols|
    ensures j <= i && cols[j] == cols[i]
    ensures forall k :: 0 <= k < j ==> cols[k] != cols[i]
  {
    FirstEqualFrom(cols, i, 0)
  }

  /** When no two columns are equal, column `i` reads command token `i`. */
  lemma DistinctColumnsAlign(cols: seq<Column>, i: nat)
    requires i < |cols|
    requires forall a, b :: 0 <= a < b < |cols| ==> cols[a] != cols[b]
    ensures FirstEqual(cols, i) == i
  {
  }

  // ---------------------------------------------------------------------
  // Scanning one column (lines 219-239)
  // ---------------------------------------------------------------------

  /** A column entry takes part when it is a word and starts with the token. */
  predicate Accepts(entry: Option<string>, token: Option<string>) {
    entry.Some? && token.Some? && StartsWith(entry.value, token.value)
  }

  /** `candidate` and `candidate_count` after the inner loop. */
  datatype Tally = Tally(candidate: Option<string>, count: nat)

  /** The inner loop, entry by entry: the count goes up each time an
      accepted word differs from the previous accepted word. */
  function TallyColumn(col: Column, token: Option<string>): Tally {
    if col == [] then Tally(None, 0)
    else
      var t := TallyColumn(col[..|col| - 1], token);
      var e := col[|col| - 1];
      if Accepts(e, token) && t.candidate != e then Tally(e, t.count + 1) else t
  }

  /** Reference meaning of a contributing column: at least one entry is
      accepted, and every accepted entry is the word `w`. */
  ghost predicate Unanimous(col: Column, token: Option<string>, w: string) {
    && (exists i :: 0 <= i < |col| && Accepts(col[i], token))
    && (forall i :: 0 <= i < |col| && Accepts(col[i], token) ==> col[i] == Some(w))
  }

  /** Counting value changes is the same as asking that all accepted words be
      equal: the count is 1 exactly when the column is unanimous, and then the
      candidate is the agreed word. */
  lemma {:induction false} TallyIsUnanimity(col: Column, token: Option<string>)
    ensures TallyColumn(col, token).count == 1 ==>
              TallyColumn(col, token).candidate.Some? &&
              Unanimous(col, token, TallyColumn(col, token).candidate.value)
    ensures forall w :: Unanimous(col, token, w) ==> TallyColumn(col, token) == Tally(Some(w), 1)
    ensures TallyColumn(col, token).count == 0 <==> forall i :: 0 <= i < |col| ==> !Accepts(col[i], token)
    ensures TallyColumn(col, token).count > 0 ==> Accepts(TallyColumn(col, token).candidate, token)
    ensures TallyColumn(col, token).count == 0 ==> TallyColumn(col, token).candidate.None?
  {
    if col != [] {
      var init := col[..|col| - 1];
      var e := col[|col| - 1];
      TallyIsUnanimity(init, token);
      assert forall i :: 0 <= i < |init| ==> init[i] == col[i];
      var t := TallyColumn(init, token);
      if Accepts(e, token) && t.candidate != e {
        if t.count == 0 {
          assert Unanimous(col, token, e.value) by {
            assert Accepts(col[|col| - 1], token);
          }
        } else {
          // two different accepted words: not unanimous for any word
          forall w | Unanimous(col, token, w)
            ensures false
          {
            assert Unanimous(init, token, w);
          }
        }
      } else if Accepts(e, token) {
        if t.count == 1 {
          assert Unanimous(col, token, t.candidate.value);
        }
        forall w | Unanimous(col, token, w)
          ensures t == Tally(Some(w), 1)
        {
          var i :| 0 <= i < |col| && Accepts(col[i], token);
          assert col[|col| - 1] == Some(w);
          assert t.count > 0;
          assert Unanimous(init, token, w);
        }
      } else {
        if t.count == 1 {
          assert Unanimous(col, token, t.candidate.value);
        }
        forall w | Unanimous(col, token, w)
          ensures t == Tally(Some(w), 1)
        {
          var i :| 0 <= i < |col| && Accepts(col[i], token);
          assert i < |init|;
          assert Unanimous(init, token, w);
        }
      }
    }
  }

  // ---------------------------------------------------------------------
  // Stage 1: accumulate the contributed words (lines 219-242)
  // ---------------------------------------------------------------------

  /** The word column `i` appends to `result[0]`, if any. */
  function ColumnWord(cols: seq<Column>, tokens: seq<string>, i: nat): Option<string>
    requires i < |cols|
  {
    var t := TallyColumn(cols[i], Piece(tokens, FirstEqual(cols, i)));
    if t.count == 1 then t.candidate else None
  }

  /** A column contributes exactly when it is unanimous for the aligned
      token, and it contributes the agreed word. */
  lemma ColumnWordIsUnanimous(cols: seq<Column>, tokens: seq<string>, i: nat)
    requires i < |cols|
    ensures ColumnWord(cols, tokens, i).Some? ==>
              Unanimous(cols[i], Piece(tokens, FirstEqual(cols, i)), ColumnWord(cols, tokens, i).value)
    ensures forall w :: Unanimous(cols[i], Piece(tokens, FirstEqual(cols, i)), w) ==>
              ColumnWord(cols, tokens, i) == Some(w)
  {
    TallyIsUnanimity(cols[i], Piece(tokens, FirstEqual(cols, i)));
  }

  /** The words contributed by the first `n` columns, in column order. A
      column that contributes nothing does not stop the scan. */
  function Matched(cols: seq<Column>, tokens: seq<string>, n: nat): seq<string>
    requires n <= |cols|
  {
    if n == 0 then []
    else
      var w := ColumnWord(cols, tokens, n - 1);
      Matched(cols, tokens, n - 1) + (if w.Some? then [w.value] else [])
  }

  /** Every contributing column, however many failed before it, places its
      word right after the words of the columns before it. */
  lemma {:induction false} MatchedKeepsEveryColumn(cols: seq<Column>, tokens: seq<string>, i: nat, n: nat)
    requires i < n <= |cols|
    ensures |Matched(cols, tokens, i)| < |Matched(cols, tokens, n)| <==> ColumnWord(cols, tokens, i).Some? || |Matched(cols, tokens, i + 1)| < |Matched(cols, tokens, n)|
    ensures ColumnWord(cols, tokens, i).Some? ==>
              Matched(cols, tokens, n)[|Matched(cols, tokens, i)|] == ColumnWord(cols, tokens, i).value
    decreases n
  {
    if n > i + 1 {
      MatchedKeepsEveryColumn(cols, tokens, i, n - 1);
    }
  }

  /** `result[0] += candidate + " "` for each contributed word. */
  function Spaced(ws: seq<string>): string {
    if ws == [] then "" else ws[0] + " " + Spaced(ws[1..])
  }

  // ---------------------------------------------------------------------
  // The resolver
  // ---------------------------------------------------------------------

  datatype Resolution = Resolution(phrase: string, rest: string)

  /** `command.split[k..-1]` is `nil` when `k` exceeds the token count, and
      `nil.join` raises. */
  datatype PhraseError = RemainderPastEnd

  /** `result[0]` after `rstrip!`. */
  function Accumulated(command: string, phrases: seq<string>): string
    requires |phrases| > 0
  {
    var cols := Rotate(phrases);
    Rstrip(Spaced(Matched(cols, Words(command), |cols|)))
  }

  /** The phrases that start with `prefix`, in list order (lines 248-253). */
  function Prefixed(phrases: seq<string>, prefix: string): (ps: seq<string>)
    ensures forall k :: 0 <= k < |ps| ==> ps[k] in phrases && StartsWith(ps[k], prefix)
    ensures forall p :: p in phrases && StartsWith(p, prefix) ==> p in ps
  {
    if phrases == [] then []
    else (if StartsWith(phrases[0], prefix) then [phrases[0]] else []) + Prefixed(phrases[1..], prefix)
  }

  /** `phrases[j]` is the only entry of the list that starts with `prefix`. */
  predicate OnlyStart(phrases: seq<string>, prefix: string, j: int) {
    && 0 <= j < |phrases| && StartsWith(phrases[j], prefix)
    && forall l :: 0 <= l < |phrases| && StartsWith(phrases[l], prefix) ==> l == j
  }

  /** `candidate_count` counts list entries, so a phrase listed twice counts
      twice: the count is 1 exactly when one entry of the list starts with
      the accumulated text. */
  lemma {:induction false} PrefixedCount(phrases: seq<string>, prefix: string)
    ensures |Prefixed(phrases, prefix)| <= |phrases|
    ensures |Prefixed(phrases, prefix)| == 1 <==> exists j :: OnlyStart(phrases, prefix, j)
  {
    if phrases != [] {
      PrefixedCount(phrases[1..], prefix);
      if StartsWith(phrases[0], prefix) {
        OnlyStartAtHead(phrases, prefix);
      } else {
        OnlyStartAfterHead(phrases, prefix);
      }
    }
  }

  /** When the first entry starts with the prefix it is the only one exactly
      when no later entry does. */
  lemma OnlyStartAtHead(phrases: seq<string>, prefix: string)
    requires phrases != [] && StartsWith(phrases[0], prefix)
    ensures (exists j :: OnlyStart(phrases, prefix, j)) <==> |Prefixed(phrases[1..], prefix)| == 0
  {
    var tail := phrases[1..];
    if |Prefixed(tail, prefix)| == 0 {
      assert OnlyStart(phrases, prefix, 0);
    } else {
      var l :| 0 <= l < |tail| && tail[l] == Prefixed(tail, prefix)[0];
      assert StartsWith(phrases[l + 1], prefix);
    }
  }

  /** When the first entry does not start with the prefix, the only entry
      that does is one of the later ones. */
  lemma OnlyStartAfterHead(phrases: seq<string>, prefix: string)
    requires phrases != [] && !StartsWith(phrases[0], prefix)
    ensures (exists j :: OnlyStart(phrases, prefix, j)) <==> exists j :: OnlyStart(phrases[1..], prefix, j)
  {
    var tail := phrases[1..];
    if exists j :: OnlyStart(tail, prefix, j) {
      var j :| OnlyStart(tail, prefix, j);
      forall l | 0 <= l < |phrases| && StartsWith(phrases[l], prefix)
        ensures l == j + 1
      {
        assert tail[l - 1] == phrases[l];
      }
      assert OnlyStart(phrases, prefix, j + 1);
    }
    if exists j :: OnlyStart(phrases, prefix, j) {
      var j :| OnlyStart(phrases, prefix, j);
      forall l | 0 <= l < |tail| && StartsWith(tail[l], prefix)
        ensures l == j - 1
      {
        assert phrases[l + 1] == tail[l];
      }
      assert OnlyStart(tail, prefix, j - 1);
    }
  }

  /** `get_phrase(command, phrases)`. An empty phrase list makes line 217
      raise, so it is excluded. */
  function GetPhrase(command: string, phrases: seq<string>): (r: Result<Resolution, PhraseError>)
    requires |phrases| > 0
    ensures r.Success? && r.value.phrase !in phrases ==> r.value == Resolution("", command)
  {
    var tokens := Words(command);
    var acc := Accumulated(command, phrases);
    var k := |Words(acc)|;
    if k > |tokens| then Failure(RemainderPastEnd)
    else
      var rest := Join(tokens[k..], " ");
      if acc in phrases then Success(Resolution(acc, rest))
      else
        var ps := Prefixed(phrases, acc);
        if |ps| == 1 then Success(Resolution(ps[0], rest))
        else Success(Resolution("", command))
  }

  /** Whatever the phrases: the phrase found is one of them or empty; an
      empty phrase comes with the command verbatim; and any other remainder
      is the command's last tokens, joined by single spaces. */
  lemma GetPhraseOutcome(command: string, phrases: seq<string>)
    requires |phrases| > 0
    ensures var r := GetPhrase(command, phrases);
            && (r.Success? && r.value.phrase != "" ==> r.value.phrase in phrases)
            && (r.Success? && r.value.phrase == "" && "" !in phrases ==> r.value.rest == command)
            && (r.Success? && r.value.rest != command ==>
                  |Words(r.value.rest)| <= |Words(command)| &&
                  Words(r.value.rest) == Words(command)[|Words(command)| - |Words(r.value.rest)|..] &&
                  r.value.rest == Join(Words(r.value.rest), " "))
  {
    var k := |Words(Accumulated(command, phrases))|;
    if k <= |Words(command)| {
      RemainderShape(command, k);
    }
  }

  /** `command.split[k..-1].join(" ")` is the command's last tokens. */
  lemma RemainderShape(command: string, k: nat)
    requires k <= |Words(command)|
    ensures var rest := Join(Words(command)[k..], " ");
            && |Words(rest)| <= |Words(command)|
            && Words(rest) == Words(command)[|Words(command)| - |Words(rest)|..]
            && rest == Join(Words(rest), " ")
  {
    var tokens := Words(command);
    assert AllWords(tokens[k..]) by {
      assert forall i :: 0 <= i < |tokens| - k ==> tokens[k..][i] == tokens[k + i];
    }
    var rest := Join(tokens[k..], " ");
    WordsOfJoin(tokens[k..]);
    assert Words(rest) == tokens[k..];
    assert |tokens| - |Words(rest)| == k;
  }

  // ---------------------------------------------------------------------
  // What the resolver computes, stage by stage
  // ---------------------------------------------------------------------

  /** No phrase holds a NUL character, which `rstrip` would also remove. */
  predicate NoNul(phrases: seq<string>) {
    forall j :: 0 <= j < |phrases| ==> '\0' !in phrases[j]
  }

  predicate Clean(w: string) {
    IsWord(w) && '\0' !in w
  }

  predicate AllClean(ws: seq<string>) {
    forall k :: 0 <= k < |ws| ==> Clean(ws[k])
  }

  /** Every word in every column is a word without NUL. */
  predicate CleanColumns(cols: seq<Column>) {
    forall i, j :: 0 <= i < |cols| && 0 <= j < |cols[i]| && cols[i][j].Some? ==> Clean(cols[i][j].value)
  }

  lemma ColumnEntriesClean(phrases: seq<string>, i: nat, j: nat)
    requires |phrases| > 0 && NoNul(phrases)
    requires i < |Rotate(phrases)| && j < |phrases|
    requires Rotate(phrases)[i][j].Some?
    ensures Clean(Rotate(phrases)[i][j].value)
  {
    var w := Rotate(phrases)[i][j].value;
    assert w == Words(phrases[j])[i];
    WordsAvoid(phrases[j], '\0');
  }

  lemma RotateClean(phrases: seq<string>)
    requires |phrases| > 0 && NoNul(phrases)
    ensures CleanColumns(Rotate(phrases))
  {
    var cols: seq<Column> := Rotate(phrases);
    forall i: nat, j: nat | 0 <= i < |cols| && 0 <= j < |cols[i]| && cols[i][j].Some?
      ensures Clean(cols[i][j].value)
    {
      ColumnEntriesClean(phrases, i, j);
    }
  }

  lemma {:induction false} MatchedClean(cols: seq<Column>, tokens: seq<string>, n: nat)
    requires CleanColumns(cols) && n <= |cols|
    ensures AllClean(Matched(cols, tokens, n))
  {
    if n > 0 {
      MatchedClean(cols, tokens, n - 1);
      ColumnWordClean(cols, tokens, n - 1);
      AllCleanAppend(Matched(cols, tokens, n - 1), ColumnWord(cols, tokens, n - 1));
    }
  }

  lemma ColumnWordClean(cols: seq<Column>, tokens: seq<string>, i: nat)
    requires CleanColumns(cols) && i < |cols|
    ensures ColumnWord(cols, tokens, i).Some? ==> Clean(ColumnWord(cols, tokens, i).value)
  {
    ColumnWordIsUnanimous(cols, tokens, i);
    if ColumnWord(cols, tokens, i).Some? {
      var j :| 0 <= j < |cols[i]| && Accepts(cols[i][j], Piece(tokens, FirstEqual(cols, i)));
      assert cols[i][j] == ColumnWord(cols, tokens, i);
    }
  }

  lemma AllCleanAppend(ws: seq<string>, w: Option<string>)
    requires AllClean(ws) && (w.Some? ==> Clean(w.value))
    ensures AllClean(ws + (if w.Some? then [w.value] else []))
  {
  }

  lemma {:induction false} SpacedIsJoin(ws: seq<string>)
    requires ws != []
    ensures Spaced(ws) == Join(ws, " ") + " "
  {
    if |ws| > 1 {
      SpacedIsJoin(ws[1..]);
    } else {
      assert Spaced(ws[1..]) == "";
    }
  }

  lemma {:induction false} JoinEndsWithLastWord(ws: seq<string>)
    requires ws != [] && AllWords(ws)
    ensures |Join(ws, " ")| > 0
    ensures Join(ws, " ")[|Join(ws, " ")| - 1] == ws[|ws| - 1][|ws[|ws| - 1]| - 1]
  {
    if |ws| > 1 {
      var tail := ws[1..];
      assert AllWords(tail) by {
        assert forall k :: 0 <= k < |tail| ==> tail[k] == ws[k + 1];
      }
      JoinEndsWithLastWord(tail);
      var t := Join(tail, " ");
      assert Join(ws, " ") == (ws[0] + " ") + t;
      assert tail[|tail| - 1] == ws[|ws| - 1];
    } else {
      assert IsWord(ws[0]);
    }
  }

  /** With NUL-free words, `rstrip!` removes exactly the final space, so
      `result[0]` is the contributed words joined by single spaces and
      splits back into exactly those words. */
  lemma AccumulatedIsJoin(ws: seq<string>)
    requires AllClean(ws)
    ensures Rstrip(Spaced(ws)) == Join(ws, " ")
    ensures Words(Join(ws, " ")) == ws
  {
    assert AllWords(ws);
    WordsOfJoin(ws);
    if ws != [] {
      SpacedIsJoin(ws);
      JoinEndsWithLastWord(ws);
      var x := Join(ws, " ");
      assert !IsStrippable(x[|x| - 1]);
      assert (x + " ")[..|x|] == x;
    }
  }

  /** The words accumulated by stage 1, for a given command. */
  function StageOne(command: string, phrases: seq<string>): seq<string>
    requires |phrases| > 0
  {
    var cols := Rotate(phrases);
    Matched(cols, Words(command), |cols|)
  }

  /** The resolver, stage by stage: it raises exactly when stage 1
      accumulated more words than the command has tokens; otherwise the
      remainder is the tokens after the first `|StageOne|` ones, whether the
      accumulated text is itself a phrase or the fallback expands it to the
      one phrase it starts; and when the fallback finds no phrase or several,
      the result is the empty phrase and the command verbatim. */
  lemma ResolutionByStages(command: string, phrases: seq<string>)
    requires |phrases| > 0 && NoNul(phrases)
    ensures var ws := StageOne(command, phrases);
            var tokens := Words(command);
            var acc := Join(ws, " ");
            && Accumulated(command, phrases) == acc
            && (GetPhrase(command, phrases).Failure? <==> |ws| > |tokens|)
            && (|ws| <= |tokens| && acc in phrases ==>
                  GetPhrase(command, phrases) == Success(Resolution(acc, Join(tokens[|ws|..], " "))))
            && (|ws| <= |tokens| && acc !in phrases && |Prefixed(phrases, acc)| == 1 ==>
                  GetPhrase(command, phrases) == Success(Resolution(Prefixed(phrases, acc)[0], Join(tokens[|ws|..], " "))))
            && (|ws| <= |tokens| && acc !in phrases && |Prefixed(phrases, acc)| != 1 ==>
                  GetPhrase(command, phrases) == Success(Resolution("", command)))
  {
    var cols := Rotate(phrases);
    RotateClean(phrases);
    MatchedClean(cols, Words(command), |cols|);
    AccumulatedIsJoin(StageOne(command, phrases));
  }

  /** Stage 1 never accumulates more words than there are columns it could
      align with a command token. */
  lemma {:induction false} MatchedWithinTokens(cols: seq<Column>, tokens: seq<string>, n: nat)
    requires n <= |cols|
    requires forall a, b :: 0 <= a < b < |cols| ==> cols[a] != cols[b]
    ensures |Matched(cols, tokens, n)| <= n
    ensures |Matched(cols, tokens, n)| <= |tokens|
  {
    if n > 0 {
      MatchedWithinTokens(cols, tokens, n - 1);
      var tok := Piece(tokens, FirstEqual(cols, n - 1));
      TallyIsUnanimity(cols[n - 1], tok);
      if ColumnWord(cols, tokens, n - 1).Some? {
        DistinctColumnsAlign(cols, n - 1);
        assert tok.Some?;
        assert n - 1 < |tokens|;
      }
    }
  }

  /** When the phrases' columns are pairwise distinct the resolver never
      raises; only a repeated column can read a token twice. */
  lemma DistinctColumnsNeverRaise(command: string, phrases: seq<string>)
    requires |phrases| > 0 && NoNul(phrases)
    requires forall a, b :: 0 <= a < b < |Rotate(phrases)| ==> Rotate(phrases)[a] != Rotate(phrases)[b]
    ensures GetPhrase(command, phrases).Success?
  {
    ResolutionByStages(command, phrases);
    MatchedWithinTokens(Rotate(phrases), Words(command), |Rotate(phrases)|);
  }

  lemma TallyWithoutToken(col: Column)
    ensures TallyColumn(col, None) == Tally(None, 0)
  {
    TallyIsUnanimity(col, None);
  }

  /** With no command tokens nothing is accumulated, so a single known
      phrase is chosen by the fallback: an empty line selects it. */
  lemma EmptyCommandSelectsOnlyPhrase(command: string, phrases: seq<string>)
    requires |phrases| == 1
    requires Words(command) == []
    ensures GetPhrase(command, phrases) == Success(Resolution(phrases[0], ""))
  {
    var cols := Rotate(phrases);
    NothingMatchedWithoutTokens(cols, |cols|);
    assert Accumulated(command, phrases) == "";
    assert Prefixed(phrases, "") == [phrases[0]];
  }

  lemma {:induction false} NothingMatchedWithoutTokens(cols: seq<Column>, n: nat)
    requires n <= |cols|
    ensures Matched(cols, [], n) == []
  {
    if n > 0 {
      NothingMatchedWithoutTokens(cols, n - 1);
      TallyWithoutToken(cols[n - 1]);
    }
  }
}
