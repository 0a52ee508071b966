# dandy: a verified model of the command resolver and the dice

dandy is a pair of Ruby scripts for running tabletop creatures from a
terminal. Both scripts do the same work: macros.rb (the older one) and
dandy.rb (the newer one). Each script reads a file of creatures, then loops
reading commands:

- `quit` ends the session.
- `roll 2d6 + 3` rolls dice. In dandy.rb the roll is made, but showing it
  raises (see "Left out").
- `hit 4` rolls a d20 to hit.
- Anything else names a creature and one of its macros, such as
  `k long` for the knight's "Longsword".

A typed name may be abbreviated. It is matched against the known names by
`get_phrase`, a two-stage fuzzy resolver:

1. **Column scan.** The phrases are split into words and transposed into
   columns. A column contributes its word when every word in it that starts
   with the aligned command token is the same word.
2. **Prefix fallback.** When the accumulated words are not themselves a
   phrase, the resolver falls back to the one phrase that starts with them.

This project models that deterministic core in Dafny and proves properties
of it. The modules are:

- `Wrappers`: `Option` and `Result`, used in place of `nil` and of raising.
- `RubyString`: the parts of Ruby's `String` the scripts rely on.
  - `split` with no argument, `split(c)` with trailing empty fields dropped, and `join`.
  - `rstrip`, `delete`, `start_with?` and ASCII `downcase`.
  - `to_i` and `to_s`.
- `RubyHash`: `Hash` with insertion-ordered keys, for `h[k] = v`, `h[k]` and `keys`,
  and a JSON object read into a `Hash`, where a repeated name keeps its first
  place and its last value.
- `PhraseResolver`: `get_phrase`, which is identical in the two scripts.
- `PhraseExamples`: the documented examples of `get_phrase` and further behaviours of it.
- `Dice`: `Macros.roll`, `Macros.hit` and the ability modifier.
  - Every value `rand` would return is passed in, in drawing order.
  - Each value lies in the range `rand` was asked for.
- `Creatures`: the creatures each script builds.
  - dandy.rb gives each creature a table of macros.
  - macros.rb gives each creature six modifiers and a table of actions.
- `Shell`: reading a line, and the `case` of `Main#run` that decides what to do with it.

Where Ruby raises, the model returns an error value:

- `get_phrase` raises when its remainder index runs past the command.
- `roll` raises when nothing follows the "d", and when a die has an empty range.
- `mod(nil)` raises for a creature without an ability score.

An empty phrase list makes `get_phrase` raise when it builds `rotated`
(`Array.new(nil)`, macros.rb line 217 and dandy.rb line 192). The model makes
a non-empty list a precondition of `GetPhrase`, and the shell maps the empty
case to `Crash`.

## Model

| member | source | states |
|---|---|---|
| RubyString.Words | macros.rb:242 | `split` with no argument gives only words: non-empty and free of whitespace. Which words is fixed by the next two rows. |
| RubyString.WordsSkipSpace | macros.rb:242 | An empty text has no tokens, and whitespace at the front of a text is skipped. |
| RubyString.WordsAfterWord | macros.rb:242 | A word followed by whitespace or by nothing is the first token, and the tokens of the rest follow it. |
| RubyString.ToIDecimalPrefix | macros.rb:173 | `to_i` skips a "0d" or "0D" radix prefix after the sign, so "0d5" reads as 5 and "-0D5" as -5. |
| RubyString.WordsOfJoin | macros.rb:242 | Words joined with single spaces split back into exactly those words. |
| RubyString.DeleteSpacesOfJoin | macros.rb:171 | Deleting the spaces from words joined with single spaces gives the words glued together. |
| RubyString.ToIOfIntToString | dandy.rb:108 | `to_i` reads back the integer that interpolation wrote, negative numbers included. |
| RubyString.SomeFieldNonEmpty | macros.rb:28 | Splitting on a character leaves some non-empty field exactly when the text holds some other character. |
| RubyString.LaterFieldNonEmpty | macros.rb:28-30 | A field after the first is non-empty exactly when some other character follows a separator. |
| RubyString.SplitHasSecond | macros.rb:28-30 | `split(c)` has a second element exactly when some other character follows a separator, so `notation[1]` is `nil` otherwise. |
| RubyString.SplitPiece | macros.rb:28-30 | Every element that `split(c)` returns is the field at that position. An element that is missing stands for an empty field. |
| RubyString.FieldsAround | macros.rb:28-30 | The fields of a text, a separator and a second text are the fields of the first text followed by the fields of the second. |
| RubyHash.Put | macros.rb:121 | After `h[k] = v`, `h[k]` is v and every other key reads as before. The old keys stay in front, and the key list grows by one exactly when k is new. |
| RubyHash.PutAllLastWins | macros.rb:120-122 | After storing a list of pairs, a key holds the value of the last pair stored under it. |
| RubyHash.PutAllUntouched | macros.rb:120-122 | A key that no pair mentions keeps the value it had before. |
| RubyHash.PutAllKeys | macros.rb:120-122 | The keys after storing are the keys from before plus the keys of the pairs. |
| RubyHash.Entries | macros.rb:120 | Iterating a hash visits each key once, in key order, with the value stored under it. |
| RubyHash.ParseObject | macros.rb:155 | A JSON object read into a hash names each key once. |
| RubyHash.ParseObjectNames | macros.rb:155 | The parsed object names exactly the keys the text names. |
| RubyHash.ParseObjectLastWins | macros.rb:155 | A key written more than once holds the value written last. |
| RubyHash.ParseObjectOfDistinct | macros.rb:155 | An object whose keys are all different reads back as written, in order. |
| PhraseResolver.RotateShape | macros.rb:211-217 | `rotated` has as many columns as the longest phrase has words and one row per phrase. Entry (i, j) is word i of phrase j, or `nil` past its end, and every column holds some word. |
| PhraseResolver.MaxLength | macros.rb:217 | `tmp.map(&:length).max` is at least every word count, and some phrase has exactly that many words. |
| PhraseResolver.FirstEqual | macros.rb:224 | `rotated.index(phrase)` is the first column equal to the given one, and no earlier column is equal to it. |
| PhraseResolver.DistinctColumnsAlign | dandy.rb:192-199 | When no two columns are equal, column i is compared with command token i. |
| PhraseResolver.TallyIsUnanimity | macros.rb:223-236 | `TallyColumn`, counting the changes of candidate gives 1 exactly when every accepted word is one and the same word. The candidate is then that word, and the count is 0 exactly when no word is accepted. |
| PhraseResolver.ColumnWordIsUnanimous | macros.rb:219-238 | A column contributes a word exactly when it is unanimous for its aligned token, and the word it contributes is the agreed one. |
| PhraseResolver.MatchedKeepsEveryColumn | macros.rb:219-239 | A column that contributes nothing does not stop the scan. Every later contributing column places its word after the words of the columns before it. |
| PhraseResolver.Prefixed | macros.rb:248-253 | The phrases that start with the accumulated text are exactly those. |
| PhraseResolver.PrefixedCount | macros.rb:248-255 | At most every phrase starts with the accumulated text. `candidate_count == 1` holds exactly when one phrase starts with it and no other does. |
| PhraseResolver.AccumulatedIsJoin | macros.rb:237-241 | After `rstrip!`, the accumulated text is the contributed words joined by single spaces, and it splits back into those words. |
| PhraseResolver.GetPhrase | macros.rb:244-263 | A result that is not one of the phrases is the empty phrase with the command verbatim. |
| PhraseResolver.GetPhraseOutcome | macros.rb:209-264 | The phrase found is either empty or one of the phrases. An empty phrase comes with the command verbatim. Any other remainder is the command's last tokens, rejoined with single spaces. |
| PhraseResolver.RemainderShape | macros.rb:242 | `command.split[k..-1].join(" ")` splits into the last tokens of the command and is its own re-join. |
| PhraseResolver.ResolutionByStages | macros.rb:241-261 | The resolver raises exactly when stage 1 accumulated more words than the command has tokens. An exact phrase and a unique prefix match both get the tokens after the accumulated count as remainder. Otherwise the result is the empty phrase with the command verbatim. |
| PhraseResolver.MatchedWithinTokens | dandy.rb:194-217 | With pairwise distinct columns, stage 1 accumulates no more words than the command has tokens. |
| PhraseResolver.DistinctColumnsNeverRaise | dandy.rb:217 | With pairwise distinct columns, `get_phrase` never raises. |
| PhraseExamples.OnePhrasePartialMatch | macros.rb:200-201 | For a single two-word phrase, a first token that starts its first word picks the phrase. The remainder is the second token. |
| PhraseExamples.TwoWordsFirstMatches | macros.rb:203-204 | Of two one-word phrases, the one the first token starts is picked. The remainder is the rest of the command. |
| PhraseExamples.TwoPhrasesFallback | dandy.rb:178-179 | The fallback expands a one-word match to the two-word phrase, while the remainder still drops only one token. |
| PhraseExamples.TwoWordsAmbiguous | macros.rb:244-260 | A token that starts two different words gives the empty phrase and the command verbatim. |
| PhraseExamples.SharedLastWord | macros.rb:219-260 | When the first column is ambiguous and the second agrees, only the shared last word accumulates, and no phrase starts with it. |
| PhraseExamples.RepeatedWord | macros.rb:224-242 | A phrase with a repeated word has two equal columns that both read the first token, so a one-token command raises. |
| PhraseExamples.FooBarExample | macros.rb:200-201 | `get_phrase("fo baz", ["foo bar"])` is `["foo bar", "baz"]`. |
| PhraseExamples.KnightExample | macros.rb:203-204 | `get_phrase("k roll 1d6", ["knight", "priest"])` is `["knight", "roll 1d6"]`. |
| PhraseExamples.DragonKnightExample | dandy.rb:178-179 | `get_phrase("d roll 1d6", ["dragon knight", "priest"])` is `["dragon knight", "roll 1d6"]`. |
| PhraseExamples.AmbiguousPrefixExample | macros.rb:255-260 | `get_phrase("k", ["knight", "kobold"])` is `["", "k"]`. |
| PhraseExamples.ExactPhraseMissedExample | macros.rb:219-260 | `get_phrase("a c", ["ab c", "a c"])` is `["", "a c"]`, although "a c" is one of the phrases. |
| PhraseExamples.RepeatedColumnRaisesExample | macros.rb:224-242 | `get_phrase("a", ["a a"])` raises. |
| PhraseResolver.EmptyCommandSelectsOnlyPhrase | macros.rb:244-256 | With no command tokens and a single phrase, the fallback picks that phrase with an empty remainder. |
| Dice.ParseFields | macros.rb:28-39 | `ParseNotation`: once spaces are gone, the count is the text before the first "d". The sides are the text from there up to the next "+". The modifier is the text between that "+" and the following one. Each is read with `to_i`. |
| Dice.MissingSidesExactly | macros.rb:28-30 | The notation raises for missing sides exactly when, with spaces deleted, nothing but further "d"s follows the first "d", or there is no "d" at all. |
| Dice.Roll | macros.rb:27-48 | Missing sides and an empty range are each the error exactly when they occur. On success there is one die per count (none for a count below 1), and each die is a face of the die. The modifier is the parsed one, and the sum is the modifier plus the dice. |
| Dice.RollBounds | macros.rb:41-45 | A successful sum lies between the modifier plus one per die and the modifier plus the number of sides per die. |
| Dice.ParseParts | macros.rb:30-39 | "a d b + m" reads as count a, sides b and modifier m. Text after a second "+" is ignored. |
| Dice.ParseWithoutModifier | macros.rb:34-38 | Without a "+", the modifier is 0. |
| Dice.ParseFormat | macros.rb:28-39 | Every spec, negative numbers included, survives being written out and read back. |
| Dice.RollIgnoresSpaces | macros.rb:28 | Spaces anywhere in the notation make no difference. |
| Dice.NoSidesRaises | macros.rb:29-30 | A notation with nothing after its "d" raises, whatever the draws. |
| Dice.EmptyRangeRaises | dandy.rb:40-44 | Dice with fewer than one side raise exactly when at least one die is to be rolled. |
| Dice.FourDEightExample | macros.rb:20-23 | `roll("4d8")` drawing 7, 2, 1 and 3 gives 13 and those dice. |
| Dice.BareSidesRollsNothing | macros.rb:28-45 | "d6" has count `"".to_i`, which is 0, so it rolls no dice and totals 0. |
| Dice.Mod | macros.rb:135-137 | `(ability - 10) / 2` rounds toward negative infinity. |
| Dice.ModExamples | macros.rb:129-132 | `mod(15)` is 2, and odd scores below 10 round down. |
| Dice.AbilityNotationParses | dandy.rb:108 | `"1d20 + #{m}"` reads back as one d20 plus m, negative m included (written "+-"). |
| Dice.AbilityRoll | dandy.rb:107-110 | An ability check with die d totals d plus the modifier. |
| Dice.Hit | dandy.rb:61-78 | A confirmation roll follows exactly when the first d20 is a 20 (crit) or a 1 (fumble). Each total is the roll plus the attack modifier. |
| Dice.HitExample | dandy.rb:55-58 | `hit(2)` with a 14 is 16 to hit. |
| Creatures.MacroTable | dandy.rb:93-113 | `@macros` is a valid hash that holds a key for every action. Its exact keys are given by `MacroKeys`. |
| Creatures.MacroKeys | dandy.rb:95-113 | The macro keys are exactly two kinds. One is the lower-cased action names. The other is "roll " followed by each of str, dex, con, int, wis and cha that has a field. |
| Creatures.CheckEntriesKeys | dandy.rb:104-113 | A check macro is stored under "roll " plus each ability field, and under nothing else. |
| Creatures.AttackMacro | dandy.rb:95-102 | Under its lower-cased name, an action's macro attacks with the last action of that name, unless a check has the same key. |
| Creatures.CheckMacro | dandy.rb:104-113 | An ability's check macro rolls with the last score given for that ability. |
| Creatures.CallMacro | dandy.rb:96-111 | An attack rolls damage first and then rolls to hit. It raises exactly when the damage notation does. A check is one d20 plus the modifier. |
| Creatures.CallCheck | dandy.rb:107-111 | A check reports the ability and its roll of d plus the modifier. |
| Creatures.ScoreOfMissing | macros.rb:106-111 | `ScoreOf`, standing for `info[k]`, is `nil` exactly when no field is named k. |
| Creatures.ScoreOfLast | macros.rb:106-111 | `ScoreOf` gives the last value given for a field name, as a parsed hash holds it. |
| Creatures.BuildSheet | macros.rb:104-123 | The sheet fails exactly when some ability has no score. Otherwise it keeps the name, holds one modifier per ability taken from that ability's score, and a valid action table. |
| Creatures.BuildSheetMissing | macros.rb:106-117 | A sheet fails exactly when the file has no field for one of the six abilities. |
| Creatures.BuildSheetMod | macros.rb:106-117 | Each modifier comes from the last field for its ability. |
| Creatures.SheetActionKeys | macros.rb:118-122 | The action table's keys are exactly the lower-cased action names. |
| Creatures.ParseFile | dandy.rb:123 | `JSON.parse` gives a file in which each creature is named once and names each action once. |
| Creatures.ParseFileNames | dandy.rb:123 | The parsed file names exactly the creatures the text names. |
| Creatures.ParseFileLastWins | dandy.rb:123 | A creature listed twice under the same name keeps its last entry. |
| Creatures.RosterKeys | dandy.rb:125-127 | `Roster`'s keys are exactly the lower-cased creature names. |
| Creatures.RosterLastWins | dandy.rb:125-127 | Of parsed creatures whose names differ only in case, the one parsed last is kept. |
| Creatures.SheetRoster | macros.rb:152-160 | Building the roster fails exactly when some creature lacks an ability score. Otherwise the roster is a valid hash. |
| Shell.ReadCommandAsWritten | macros.rb:165 | `gets.rstrip!.downcase` raises exactly when the line does not end in whitespace. Otherwise it is the stripped line in lower case. |
| Shell.UnterminatedLineRaises | macros.rb:165 | A last line "quit" with no newline raises, while "quit\n" reads as "quit". |
| Shell.ReadCommand | dandy.rb:133 | The intended reading: the line in lower case, with all trailing whitespace gone and nothing else removed. |
| Shell.ReadCommandAgrees | dandy.rb:133 | Wherever the line as written is read at all, it reads the same as the intended reading. |
| Shell.ReadCommandQuits | dandy.rb:133-137 | Read as intended, "quit" and "Quit\n" both end the session. |
| Shell.Dispatch | macros.rb:167-185 | `quit`, `roll` and `hit` are chosen exactly by the first token. A roll notation has no spaces, and hit's modifier is the second token's `to_i` (0 when there is none). A macro runs only for a known creature and one of its macros, and no creatures at all raises. |
| Shell.RollJoinsArguments | dandy.rb:138-139 | `roll` glues its arguments together, which parses the same as the arguments joined with spaces. |
| Shell.HitWithoutArgument | dandy.rb:140-141 | `hit` with no argument rolls with modifier 0. |
| Shell.HitDecimalPrefix | dandy.rb:140-141 | `hit 0d5` rolls with modifier 5, since `to_i` skips the "0d". |
| Shell.MacroRoute | dandy.rb:143-152 | Any other line resolves a creature and then one of its macros, each with `get_phrase`. Nothing happens unless both resolve. |
| Shell.EmptyLineRunsSoleMacro | dandy.rb:143-152 | With a single creature that has a single macro, an empty line runs that macro. |
| Shell.SheetDispatch | macros.rb:175-183 | A macro that the dispatch runs over a macros.rb roster is an action of a creature on that roster. |

## Left out

- Reading the creature file and the JSON syntax are not modelled, because they are file I/O and a text parser. The text is given as the list of its creatures in file order. Each creature has its integer fields in file order, and its actions as `[attack_mod, damage, type]` triples. What `JSON.parse` does with a repeated name (first place, last value) is modelled by `ParseObject` and `ParseFile`, and the builders take the parsed file.
- A creature entry without "actions" is left out, and so are non-integer scores and attack modifiers.
- The terminal loop is not modelled: `print`, `gets`, `puts` and `exit`, and a `gets` that returns `nil` at the end of input. One turn is modelled, from the line read to the decision taken.
- dandy.rb's `display` is left out, because it writes to the console and appends to `log.txt`. One consequence is not modelled: dandy.rb's `Macros.roll` returns an array (`return sum, dice, mod`, line 46), and `display` adds `"\n\n"` to it (line 161). Adding a string to an array raises `TypeError`, so every `roll` command in dandy.rb raises once the dice are rolled. `Dispatch` models only the decision to roll.
- `rand` is replaced by the values it would draw, which are passed in. Each value must be a face of the die.
- The output text of `roll`, `hit`, `Macros.macro` and the macro lambdas is left out. The model returns the numbers that the text reports.
- `downcase` is modelled for ASCII letters only, while Ruby's lowers all Unicode letters.
- `to_i` is modelled for base 10 only: leading whitespace, an optional sign, an optional "0d" or "0D" prefix, then digits with single underscores between them. Other bases are never asked for.
- `rstrip` removes trailing NUL characters as well as whitespace, and so does the model. The lemmas that describe resolution stage by stage assume that no phrase contains a NUL.
- A notation with no count, such as "d6", is not an error. The count reads as `"".to_i`, which is 0, so no dice are rolled and the total is the modifier.
- A line editor, a command history, a pager, aliases, sub-commands in parentheses, "-" modifiers and case-insensitive phrase matching exist in neither script, and none of them is modelled.
- PhraseResolver.GetPhrase: its own contract states only the failed-match case. Its other properties are proved in `GetPhraseOutcome` and `ResolutionByStages`.
- Dice.Roll: the bounds on the sum are proved in `RollBounds`, not stated in `Roll`'s own contract.

## Findings

| source | as written | input that shows it | evidently intended | confidence | as-written member | corrected member |
|---|---|---|---|---|---|---|
| macros.rb:165 (and dandy.rb:133) | `gets.rstrip!.downcase`. `rstrip!` returns `nil` when there is nothing to strip, and `nil.downcase` raises. | A last line "quit" with no trailing newline, as piped input or a file without a final newline gives it. | `gets.rstrip.downcase`: strip whatever trailing whitespace there is, if any. | medium, not executed | Shell.ReadCommandAsWritten (Shell.UnterminatedLineRaises) | Shell.ReadCommand (Shell.ReadCommandAgrees, Shell.ReadCommandQuits) |
