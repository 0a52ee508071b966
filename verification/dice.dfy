/** `Macros.roll`, `Macros.hit` and the ability modifier, shared by both
    scripts. The random numbers are inputs: every value `rand(1..n)` would
    draw is handed in, in drawing order. */
module Dice {

  import opened Wrappers
  import opened RubyString

  // ---------------------------------------------------------------------
  // Dice notation
  // ---------------------------------------------------------------------

  /** What a notation asks for: `count` dice with `sides` faces, plus
      `modifier`. */
  datatype DiceSpec = DiceSpec(count: int, sides: int, modifier: int)

  /** `arr[i].to_i` on a split result, where `nil.to_i` is 0. */
  function PieceToI(fs: seq<string>, i: nat): int {
    match Piece(fs, i)
    case None => 0
    case Some(f) => ToI(f)
  }

  /** Lines 28-38 of `roll`: delete the spaces, split on "d", split the
      second piece on "+". The count is the first piece, the sides the text
      up to the first "+", the modifier the text between the first and the
      second "+"; each read with `to_i`. `None` is the case where
      `notation[1]` is `nil`, so `nil.split` raises. */
  function ParseNotation(notation: string): Option<DiceSpec> {
    var s := Delete(notation, ' ');
    var parts := Split(s, 'd');
    if |parts| < 2 then None
    else
      var faces := Split(parts[1], '+');
      Some(DiceSpec(ToI(parts[0]), PieceToI(faces, 0), PieceToI(faces, 1)))
  }

  /** Read field by field: the count is everything before the first "d",
      the sides everything between it and the first "+" after it, the
      modifier everything between that "+" and the next. */
  lemma ParseFields(notation: string)
    ensures var s := Delete(notation, ' ');
            var faces := Field(s, 'd', 1);
            ParseNotation(notation).Some? ==>
              ParseNotation(notation).value == DiceSpec(ToI(Field(s, 'd', 0)), ToI(Field(faces, '+', 0)), ToI(Field(faces, '+', 1)))
  {
    var s := Delete(notation, ' ');
    var parts := Split(s, 'd');
    if |parts| >= 2 {
      SplitPiece(s, 'd', 0);
      SplitPiece(s, 'd', 1);
      SplitPiece(parts[1], '+', 0);
      SplitPiece(parts[1], '+', 1);
    }
  }

  /** `roll` finds no sides exactly when, once the spaces are gone, nothing
      but more "d"s follows the first "d" (or there is no "d" at all). */
  lemma MissingSidesExactly(notation: string)
    ensures ParseNotation(notation).None? <==> !TextAfterSeparator(Delete(notation, ' '), 'd')
  {
    SplitHasSecond(Delete(notation, ' '), 'd');
  }

  /** How many times `(1..count).each` runs. */
  function DieCount(count: int): nat {
    if count < 1 then 0 else count
  }

  /** `rand(1..sides)` can only be drawn from a non-empty range; with no
      dice to roll the range is never used. */
  predicate Rollable(spec: DiceSpec) {
    spec.count < 1 || spec.sides >= 1
  }

  predicate InRange(dice: seq<int>, sides: int) {
    forall i :: 0 <= i < |dice| ==> 1 <= dice[i] <= sides
  }

  /** The values `rand` hands back while rolling `spec`: one per die, each
      a face of the die. */
  predicate FairDraws(spec: DiceSpec, draws: seq<int>) {
    |draws| == DieCount(spec.count) && InRange(draws, spec.sides)
  }

  /** The draws fit the notation whenever the notation gets as far as
      rolling. */
  predicate DrawsFit(notation: string, draws: seq<int>) {
    match ParseNotation(notation)
    case None => true
    case Some(spec) => !Rollable(spec) || FairDraws(spec, draws)
  }

  // ---------------------------------------------------------------------
  // `Macros.roll`
  // ---------------------------------------------------------------------

  /** `sum, dice, mod` as `roll` returns them. */
  datatype RollResult = RollResult(sum: int, dice: seq<int>, modifier: int)

  /** The two ways `roll` raises: nothing after the "d" (`nil.split`), or a
      die to roll from an empty range (`rand(1..0)` gives `nil`, and adding
      it to the sum raises). */
  datatype RollError = MissingSides | EmptyRange

  function Sum(xs: seq<int>): int {
    if xs == [] then 0 else Sum(xs[..|xs| - 1]) + xs[|xs| - 1]
  }

  lemma {:induction false} SumBounds(xs: seq<int>, sides: int)
    requires InRange(xs, sides)
    ensures |xs| <= Sum(xs) <= |xs| * sides
  {
    if xs != [] {
      SumBounds(xs[..|xs| - 1], sides);
    }
  }

  /** `Macros.roll(notation)` with `draws` the values of the successive
      `rand(1..sides)` calls. */
  function Roll(notation: string, draws: seq<int>): (r: Result<RollResult, RollError>)
    requires DrawsFit(notation, draws)
    ensures r == Failure(MissingSides) <==> ParseNotation(notation).None?
    ensures r == Failure(EmptyRange) <==> ParseNotation(notation).Some? && !Rollable(ParseNotation(notation).value)
    ensures r.Success? ==>
              var spec := ParseNotation(notation).value;
              && r.value.dice == draws
              && |r.value.dice| == DieCount(spec.count)
              && InRange(r.value.dice, spec.sides)
              && r.value.modifier == spec.modifier
              && r.value.sum == r.value.modifier + Sum(r.value.dice)
  {
    RollParsed(ParseNotation(notation), draws)
  }

  /** The rest of `roll` once the notation has been read. */
  function RollParsed(parsed: Option<DiceSpec>, draws: seq<int>): Result<RollResult, RollError>
    requires parsed.Some? && Rollable(parsed.value) ==> FairDraws(parsed.value, draws)
  {
    match parsed
    case None => Failure(MissingSides)
    case Some(spec) =>
      if !Rollable(spec) then Failure(EmptyRange)
      else Success(RollResult(spec.modifier + Sum(draws), draws, spec.modifier))
  }

  /** A successful roll totals at least one per die and at most the number
      of sides per die, on top of the modifier. */
  lemma RollBounds(notation: string, draws: seq<int>)
    requires DrawsFit(notation, draws) && Roll(notation, draws).Success?
    ensures var r := Roll(notation, draws).value;
            var sides := ParseNotation(notation).value.sides;
            r.modifier + |r.dice| <= r.sum <= r.modifier + |r.dice| * sides
  {
    SumBounds(draws, ParseNotation(notation).value.sides);
  }

  lemma FieldsAtD(s: string, a: string, tail: string)
    requires s == a + ['d'] + tail && ' ' !in s && 'd' !in a && 'd' !in tail
    ensures Field(Delete(s, ' '), 'd', 0) == a && Field(Delete(s, ' '), 'd', 1) == tail
  {
    DeleteAbsent(s, ' ');
    FieldsAround(a, 'd', tail);
    FieldsNoSeparator(a, 'd');
    FieldsNoSeparator(tail, 'd');
  }

  lemma FieldsAtPlus(t: string, b: string, m: string)
    requires t == b + ['+'] + m && '+' !in b
    ensures Field(t, '+', 0) == b && Field(t, '+', 1) == Field(m, '+', 0)
  {
    FieldsAround(b, '+', m);
    FieldsNoSeparator(b, '+');
  }

  /** Once parsed, a rollable notation adds its modifier to the dice. */
  lemma RollOfSpec(s: string, spec: DiceSpec, draws: seq<int>, total: int)
    requires ParseNotation(s) == Some(spec) && Rollable(spec) && FairDraws(spec, draws)
    requires total == spec.modifier + Sum(draws)
    ensures DrawsFit(s, draws)
    ensures Roll(s, draws) == Success(RollResult(total, draws, spec.modifier))
  {
    RollParsedOfSpec(spec, draws, total);
  }

  lemma RollParsedOfSpec(spec: DiceSpec, draws: seq<int>, total: int)
    requires Rollable(spec) && FairDraws(spec, draws)
    requires total == spec.modifier + Sum(draws)
    ensures RollParsed(Some(spec), draws) == Success(RollResult(total, draws, spec.modifier))
  {
  }

  /** A notation with text after its "d" reads as its three fields. */
  lemma ParseOfFields(notation: string, c: string, sides: string, m: string)
    requires TextAfterSeparator(Delete(notation, ' '), 'd')
    requires Field(Delete(notation, ' '), 'd', 0) == c
    requires Field(Field(Delete(notation, ' '), 'd', 1), '+', 0) == sides
    requires Field(Field(Delete(notation, ' '), 'd', 1), '+', 1) == m
    ensures ParseNotation(notation) == Some(DiceSpec(ToI(c), ToI(sides), ToI(m)))
  {
    MissingSidesExactly(notation);
    ParseFields(notation);
  }

  /** A notation written as count "d" sides "+" modifier reads back as those
      three numbers; whatever follows a second "+" is ignored. */
  lemma ParseParts(s: string, a: string, b: string, m: string)
    requires s == a + "d" + b + "+" + m
    requires ' ' !in a && ' ' !in b && ' ' !in m
    requires 'd' !in a && 'd' !in b && 'd' !in m && '+' !in b
    ensures ParseNotation(s) == Some(DiceSpec(ToI(a), ToI(b), ToI(Field(m, '+', 0))))
  {
    var tail := b + ['+'] + m;
    assert s == a + ['d'] + tail;
    assert ' ' !in s && 'd' !in tail;
    FieldsAtD(s, a, tail);
    FieldsAtPlus(tail, b, m);
    DeleteAbsent(s, ' ');
    assert s[|a|] == 'd' && s[|a| + |b| + 1] == '+';
    ParseOfFields(s, a, b, Field(m, '+', 0));
  }

  /** Without a "+" the modifier is 0. */
  lemma ParseWithoutModifier(s: string, a: string, b: string)
    requires s == a + "d" + b && b != ""
    requires ' ' !in a && ' ' !in b
    requires 'd' !in a && 'd' !in b && '+' !in b
    ensures ParseNotation(s) == Some(DiceSpec(ToI(a), ToI(b), 0))
  {
    assert s == a + ['d'] + b;
    assert ' ' !in s;
    FieldsAtD(s, a, b);
    WithoutPlus(b);
    DeleteAbsent(s, ' ');
    TextAfterD(s, a, b);
    ParseOfFields(s, a, b, "");
  }

  lemma WithoutPlus(b: string)
    requires '+' !in b
    ensures Field(b, '+', 0) == b && Field(b, '+', 1) == "" && ToI("") == 0
  {
    FieldsNoSeparator(b, '+');
  }

  lemma TextAfterD(s: string, a: string, tail: string)
    requires s == a + ['d'] + tail && tail != [] && tail[0] != 'd'
    ensures TextAfterSeparator(s, 'd')
  {
    assert s[|a|] == 'd' && s[|a| + 1] == tail[0];
  }

  /** The canonical text of a spec, `"#{count}d#{sides}+#{modifier}"`. */
  function Format(spec: DiceSpec): string {
    IntToString(spec.count) + "d" + IntToString(spec.sides) + "+" + IntToString(spec.modifier)
  }

  lemma IntTextIsPlain(n: int)
    ensures ' ' !in IntToString(n) && 'd' !in IntToString(n) && '+' !in IntToString(n)
  {
    var t := IntToString(n);
    forall i | 0 <= i < |t|
      ensures t[i] != ' ' && t[i] != 'd' && t[i] != '+'
    {
    }
  }

  /** Every spec, negative numbers included, survives writing it out and
      reading it back. */
  lemma ParseFormat(spec: DiceSpec)
    ensures ParseNotation(Format(spec)) == Some(spec)
  {
    IntTextIsPlain(spec.count);
    IntTextIsPlain(spec.sides);
    IntTextIsPlain(spec.modifier);
    ParseParts(Format(spec), IntToString(spec.count), IntToString(spec.sides), IntToString(spec.modifier));
    FieldsNoSeparator(IntToString(spec.modifier), '+');
    ToIOfIntToString(spec.count);
    ToIOfIntToString(spec.sides);
    ToIOfIntToString(spec.modifier);
  }

  /** Spaces anywhere in the notation make no difference. */
  lemma RollIgnoresSpaces(notation: string)
    ensures ParseNotation(Delete(notation, ' ')) == ParseNotation(notation)
  {
    DeleteAbsent(Delete(notation, ' '), ' ');
  }

  /** A notation with no "d", or with nothing after its "d"s, raises. */
  lemma NoSidesRaises(notation: string, draws: seq<int>)
    requires !TextAfterSeparator(Delete(notation, ' '), 'd')
    ensures DrawsFit(notation, draws)
    ensures Roll(notation, draws) == Failure(MissingSides)
  {
    MissingSidesExactly(notation);
  }

  /** Dice with fewer than one side cannot be rolled; no dice never fail. */
  lemma EmptyRangeRaises(spec: DiceSpec, draws: seq<int>)
    ensures DrawsFit(Format(spec), draws) <==> !Rollable(spec) || FairDraws(spec, draws)
    ensures DrawsFit(Format(spec), draws) ==>
              (Roll(Format(spec), draws) == Failure(EmptyRange) <==> spec.count >= 1 && spec.sides < 1)
  {
    ParseFormat(spec);
  }

  lemma OneDigit(c: char)
    requires IsDigit(c)
    ensures ToI([c]) == DigitValue(c)
  {
    ToIOfDigits([c]);
    var ds := DigitValues([c]);
    assert ds == [DigitValue(c)];
    assert ds[..0] == [];
  }

  lemma SmallNumbers()
    ensures ToI("4") == 4 && ToI("8") == 8 && ToI("6") == 6 && ToI("1") == 1 && ToI("") == 0
  {
    assert ToI("4") == 4 by { OneDigit('4'); }
    assert ToI("8") == 8 by { OneDigit('8'); }
    assert ToI("6") == 6 by { OneDigit('6'); }
    assert ToI("1") == 1 by { OneDigit('1'); }
    assert ToI("") == 0 by { assert TrimLeft("") == ""; }
  }

  lemma Twenty()
    ensures ToI("20") == 20
  {
    assert NatToString(2) == "2";
    assert NatToString(20) == NatToString(2) + [DigitChar(0)] == "20";
    ToIOfNatToString(20);
  }

  lemma FourDEightText()
    ensures "4d8" == "4" + "d" + "8"
  {
  }

  lemma FourDEightParts(s: string)
    requires s == "4d8"
    ensures ParseNotation(s) == Some(DiceSpec(ToI("4"), ToI("8"), 0))
  {
    FourDEightText();
    ParseWithoutModifier(s, "4", "8");
  }

  lemma FourDEightParse(s: string)
    requires s == "4d8"
    ensures ParseNotation(s) == Some(DiceSpec(4, 8, 0))
  {
    FourDEightParts(s);
    SmallNumbers();
  }

  lemma FourDEightSum()
    ensures Sum([7, 2, 1, 3]) == 13
    ensures FairDraws(DiceSpec(4, 8, 0), [7, 2, 1, 3])
  {
    assert [7, 2, 1, 3][..3] == [7, 2, 1];
    assert [7, 2, 1][..2] == [7, 2];
    assert [7, 2][..1] == [7];
    assert [7][..0] == [];
  }

  lemma FourDEightRoll(s: string, draws: seq<int>)
    requires ParseNotation(s) == Some(DiceSpec(4, 8, 0)) && draws == [7, 2, 1, 3]
    ensures DrawsFit(s, draws)
    ensures Roll(s, draws) == Success(RollResult(13, draws, 0))
  {
    FourDEightSum();
    RollOfSpec(s, DiceSpec(4, 8, 0), draws, 13);
  }

  /** `roll("4d8")` drawing 7, 2, 1 and 3 gives `[13, [7, 2, 1, 3]]`. */
  lemma FourDEightExample()
    ensures DrawsFit("4d8", [7, 2, 1, 3])
    ensures Roll("4d8", [7, 2, 1, 3]) == Success(RollResult(13, [7, 2, 1, 3], 0))
  {
    FourDEightParse("4d8");
    FourDEightRoll("4d8", [7, 2, 1, 3]);
  }

  lemma BareSidesParse(s: string)
    requires s == "d6"
    ensures ParseNotation(s) == Some(DiceSpec(0, 6, 0))
  {
    assert s == "" + "d" + "6";
    SmallNumbers();
    ParseWithoutModifier(s, "", "6");
  }

  /** With no count in front of the "d", `to_i` reads 0 and nothing is
      rolled: "d6" comes out as 0. */
  lemma BareSidesRollsNothing()
    ensures DrawsFit("d6", [])
    ensures Roll("d6", []) == Success(RollResult(0, [], 0))
  {
    BareSidesParse("d6");
  }

  // ---------------------------------------------------------------------
  // Ability modifiers
  // ---------------------------------------------------------------------

  /** `(ability - 10) / 2` with Ruby's integer division, which rounds
      toward negative infinity. */
  function Mod(score: int): (m: int)
    ensures 2 * m <= score - 10 < 2 * m + 2
  {
    (score - 10) / 2
  }

  /** `mod(15)` is 2; an odd score below 10 rounds down, not toward 0. */
  lemma ModExamples()
    ensures Mod(15) == 2 && Mod(10) == 0 && Mod(9) == -1 && Mod(8) == -1 && Mod(1) == -5
  {
  }

  /** The notation an ability-check macro rolls, `"1d20 + #{(value - 10) / 2}"`. */
  function AbilityNotation(score: int): string {
    "1d20 + " + IntToString(Mod(score))
  }

  lemma AbilityPrefix()
    ensures Delete("1d20 + ", ' ') == "1d20+"
  {
    assert "1d20 + " == "1d20" + [' '] + "+ ";
    DeleteAfter("1d20", ' ', "+ ");
    assert "+ " == "+" + [' '] + "";
    DeleteAfter("+", ' ', "");
  }

  lemma AbilityPrefixParts()
    ensures "1d20+" == "1" + "d" + "20" + "+"
  {
    assert "1" + "d" == "1d";
    assert "1d" + "20" == "1d20";
    assert "1d20" + "+" == "1d20+";
  }

  lemma AbilityText(p: string, q: string, m: string)
    requires Delete(p, ' ') == q && ' ' !in m
    ensures Delete(p + m, ' ') == q + m
  {
    DeleteConcat(p, m, ' ');
    DeleteAbsent(m, ' ');
  }

  /** An ability check is one twenty-sided die plus the ability modifier,
      negative modifiers included. */
  lemma AbilityNotationParses(score: int)
    ensures ParseNotation(AbilityNotation(score)) == Some(DiceSpec(1, 20, Mod(score)))
  {
    var m := IntToString(Mod(score));
    IntTextIsPlain(Mod(score));
    AbilityPrefix();
    AbilityPrefixParts();
    AbilityText("1d20 + ", "1d20+", m);
    var s := "1" + "d" + "20" + "+" + m;
    ParseParts(s, "1", "20", m);
    RollIgnoresSpaces(AbilityNotation(score));
    FieldsNoSeparator(m, '+');
    SmallNumbers();
    Twenty();
    ToIOfIntToString(Mod(score));
  }

  /** One die plus a modifier, whatever the notation's text. */
  lemma OneDieRoll(s: string, spec: DiceSpec, m: int, d: int)
    requires ParseNotation(s) == Some(spec) && spec.count == 1 && spec.modifier == m && 1 <= d <= spec.sides
    ensures DrawsFit(s, [d])
    ensures Roll(s, [d]) == Success(RollResult(m + d, [d], m))
  {
    OneDieParsed(ParseNotation(s), spec, m, d);
  }

  lemma OneDieParsed(p: Option<DiceSpec>, spec: DiceSpec, m: int, d: int)
    requires p == Some(spec) && spec.count == 1 && spec.modifier == m && 1 <= d <= spec.sides
    ensures FairDraws(spec, [d])
    ensures RollParsed(p, [d]) == Success(RollResult(m + d, [d], m))
  {
    OneDraw(spec, d);
    RollParsedOfSpec(spec, [d], m + d);
  }

  lemma OneDraw(spec: DiceSpec, d: int)
    requires spec.count == 1 && 1 <= d <= spec.sides
    ensures FairDraws(spec, [d]) && Sum([d]) == d
  {
    assert [d][..0] == [];
  }

  /** Rolling an ability check with die `d` totals `d` plus the modifier. */
  lemma AbilityRoll(score: int, d: int)
    requires 1 <= d <= 20
    ensures DrawsFit(AbilityNotation(score), [d])
    ensures Roll(AbilityNotation(score), [d]) == Success(RollResult(Mod(score) + d, [d], Mod(score)))
  {
    AbilityNotationParses(score);
    OneDieRoll(AbilityNotation(score), DiceSpec(1, 20, Mod(score)), Mod(score), d);
  }

  // ---------------------------------------------------------------------
  // `Macros.hit`
  // ---------------------------------------------------------------------

  datatype Confirmation = Crit | Fumble

  /** One d20 roll and its total with the attack modifier. */
  datatype Attempt = Attempt(roll: int, total: int)

  /** A roll to hit; a natural 20 or 1 is followed by a confirming roll. */
  datatype HitResult =
    | Straight(first: Attempt)
    | Confirmed(first: Attempt, kind: Confirmation, second: Attempt)

  function Rolls(r: HitResult): seq<int> {
    match r
    case Straight(a) => [a.roll]
    case Confirmed(a, _, b) => [a.roll, b.roll]
  }

  function Attempts(r: HitResult): seq<Attempt> {
    match r
    case Straight(a) => [a]
    case Confirmed(a, _, b) => [a, b]
  }

  /** The d20 values `hit` draws: a second one exactly when the first is a
      20 or a 1. */
  predicate D20Draws(d20s: seq<int>) {
    && |d20s| >= 1
    && InRange(d20s, 20)
    && |d20s| == (if d20s[0] == 20 || d20s[0] == 1 then 2 else 1)
  }

  function AttemptWith(attackMod: int, d: int): Attempt {
    Attempt(d, d + attackMod)
  }

  /** `Macros.hit(attack_mod)` with `d20s` the values of its `rand(1..20)`
      calls. */
  function Hit(attackMod: int, d20s: seq<int>): (r: HitResult)
    requires D20Draws(d20s)
    ensures r.Confirmed? <==> d20s[0] == 20 || d20s[0] == 1
    ensures r.Confirmed? ==> (r.kind == Crit <==> d20s[0] == 20)
    ensures Rolls(r) == d20s
    ensures forall k :: 0 <= k < |Attempts(r)| ==>
              Attempts(r)[k].total == Attempts(r)[k].roll + attackMod &&
              1 + attackMod <= Attempts(r)[k].total <= 20 + attackMod
  {
    var first := AttemptWith(attackMod, d20s[0]);
    if d20s[0] == 20 then Confirmed(first, Crit, AttemptWith(attackMod, d20s[1]))
    else if d20s[0] == 1 then Confirmed(first, Fumble, AttemptWith(attackMod, d20s[1]))
    else Straight(first)
  }

  /** `hit(2)` with a 14 is a plain 16 to hit. */
  lemma HitExample()
    ensures D20Draws([14])
    ensures Hit(2, [14]) == Straight(Attempt(14, 16))
  {
  }
}
