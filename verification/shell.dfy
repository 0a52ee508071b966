/** One turn of `Main#run`, the same in both scripts: read a line, then
    quit, roll dice, roll to hit, or resolve a creature and one of its
    macros with `get_phrase`. Only the choice is modelled; the rolling and
    printing that follow it are the other modules' business. */
module Shell {

  import opened Wrappers
  import opened RubyString
  import opened RubyHash
  import opened PhraseResolver
  import opened Dice
  import Creatures

  // ---------------------------------------------------------------------
  // Reading the line: `gets.rstrip!.downcase`
  // ---------------------------------------------------------------------

  /** `gets.rstrip!.downcase` as written. `rstrip!` answers `nil` when there
      is nothing to strip, and `nil.downcase` raises: `None`. */
  function ReadCommandAsWritten(line: string): (r: Option<string>)
    ensures r.None? <==> line == [] || !IsStrippable(line[|line| - 1])
    ensures r.Some? ==> r.value == Lower(Rstrip(line))
  {
    if Rstrip(line) == line then None else Some(Lower(Rstrip(line)))
  }

  /** A last line that does not end in a newline, such as "quit" at the end
      of piped input, raises instead of being read. */
  lemma UnterminatedLineRaises()
    ensures ReadCommandAsWritten("quit") == None
    ensures ReadCommandAsWritten("quit\n") == Some("quit")
  {
    assert "quit\n"[..4] == "quit";
    assert Rstrip("quit\n") == Rstrip("quit") == "quit";
    var q := Lower("quit");
    assert q[0] == 'q' && q[1] == 'u' && q[2] == 'i' && q[3] == 't';
    assert q == "quit";
  }

  lemma LowerKeepsStrippable(c: char)
    ensures IsStrippable(LowerChar(c)) <==> IsStrippable(c)
  {
  }

  /** The command as the line evidently means it: trailing whitespace
      removed, ASCII letters lower-cased, whether or not there was anything
      to remove. */
  function ReadCommand(line: string): (r: string)
    ensures |r| <= |line|
    ensures forall i :: 0 <= i < |r| ==> r[i] == LowerChar(line[i])
    ensures forall i :: |r| <= i < |line| ==> IsStrippable(line[i])
    ensures r == [] || !IsStrippable(r[|r| - 1])
  {
    var t := Rstrip(line);
    assert t != [] ==> !IsStrippable(LowerChar(t[|t| - 1])) by {
      if t != [] {
        LowerKeepsStrippable(t[|t| - 1]);
      }
    }
    Lower(t)
  }

  /** Wherever the line as written is read at all, it reads the same. */
  lemma ReadCommandAgrees(line: string)
    ensures ReadCommandAsWritten(line).Some? ==> ReadCommandAsWritten(line).value == ReadCommand(line)
    ensures line != [] && IsStrippable(line[|line| - 1]) ==> ReadCommandAsWritten(line) == Some(ReadCommand(line))
  {
  }

  lemma LowerQuit(s: string)
    requires |s| == 4 && s[0] in "qQ" && s[1] in "uU" && s[2] in "iI" && s[3] in "tT"
    ensures Lower(s) == "quit"
  {
  }

  /** Read as intended, "quit" ends the session whether or not a newline
      follows it, and whatever its case. */
  lemma ReadCommandQuits<M>(creatures: Dict<Dict<M>>)
    ensures Dispatch(ReadCommand("quit"), creatures) == Quit
    ensures Dispatch(ReadCommand("Quit\n"), creatures) == Quit
  {
    assert "Quit\n"[..4] == "Quit";
    assert Rstrip("Quit\n") == "Quit";
    assert Rstrip("quit") == "quit";
    LowerQuit("Quit");
    LowerQuit("quit");
    assert Join(["quit"], " ") == "quit";
    WordsOfJoin(["quit"]);
  }

  // ---------------------------------------------------------------------
  // Choosing what to do: the `case` of `Main#run`
  // ---------------------------------------------------------------------

  datatype Command =
    | Quit
    | RollDice(notation: string)
    | RollToHit(attackMod: int)
    | RunMacro(creature: string, macro: string)
    | Nothing
    | Crash

  /** `command.split[0]`. */
  function Head(command: string): Option<string> {
    Piece(Words(command), 0)
  }

  predicate IsKeyword(h: Option<string>) {
    h == Some("quit") || h == Some("roll") || h == Some("hit")
  }

  /** The `case` of `Main#run` (macros.rb lines 167-185, dandy.rb lines
      135-153) over the roster `creatures`, which maps each creature's
      lower-cased name to its table of macros (or actions). `Crash` stands
      for `get_phrase` raising: on an empty list of phrases, or when the
      remainder runs past the command. */
  function Dispatch<M>(command: string, creatures: Dict<Dict<M>>): (r: Command)
    ensures r == Quit <==> Head(command) == Some("quit")
    ensures r.RollDice? <==> Head(command) == Some("roll")
    ensures r.RollDice? ==> ' ' !in r.notation
    ensures r.RollToHit? <==> Head(command) == Some("hit")
    ensures r.RollToHit? ==> r.attackMod == (if |Words(command)| > 1 then ToI(Words(command)[1]) else 0)
    ensures r.RunMacro? ==> !IsKeyword(Head(command)) &&
                            r.creature in creatures.at && r.macro in creatures.at[r.creature].at
    ensures !IsKeyword(Head(command)) && creatures.keys == [] ==> r == Crash
  {
    var tokens := Words(command);
    if Head(command) == Some("quit") then Quit
    else if Head(command) == Some("roll") then
      assert ' ' !in Join(tokens[1..], "") by {
        DeleteSpacesOfJoin(tokens[1..]);
      }
      RollDice(Join(tokens[1..], ""))
    else if Head(command) == Some("hit") then
      RollToHit(if |tokens| > 1 then ToI(tokens[1]) else 0)
    else if creatures.keys == [] then Crash
    else
      match GetPhrase(command, creatures.keys)
      case Failure(_) => Crash
      case Success(found) =>
        match Get(creatures, found.phrase)
        case None => Nothing
        case Some(table) =>
          if table.keys == [] then Crash
          else
            match GetPhrase(found.rest, table.keys)
            case Failure(_) => Crash
            case Success(chosen) =>
              if chosen.phrase in table.at then RunMacro(found.phrase, chosen.phrase) else Nothing
  }

  /** `roll` glues its arguments together with nothing between them, which
      reads the same as the arguments typed with single spaces: "roll 1d6 +
      2" rolls "1d6 + 2". */
  lemma RollJoinsArguments<M>(command: string, creatures: Dict<Dict<M>>, args: seq<string>)
    requires Words(command) == ["roll"] + args
    ensures Dispatch(command, creatures).RollDice?
    ensures ParseNotation(Dispatch(command, creatures).notation) == ParseNotation(Join(args, " "))
  {
    assert Words(command)[1..] == args;
    assert AllWords(args) by {
      assert forall k :: 0 <= k < |args| ==> args[k] == Words(command)[k + 1];
    }
    DeleteSpacesOfJoin(args);
    RollIgnoresSpaces(Join(args, " "));
  }

  /** `hit` with no argument rolls with modifier 0, since `nil.to_i` is 0. */
  lemma HitWithoutArgument<M>(command: string, creatures: Dict<Dict<M>>)
    requires Words(command) == ["hit"]
    ensures Dispatch(command, creatures) == RollToHit(0)
  {
  }

  /** `to_i` reads "hit 0d5" as a modifier of 5: the "0d" radix prefix is
      skipped. */
  lemma HitDecimalPrefix<M>(command: string, creatures: Dict<Dict<M>>, digits: string)
    requires digits != [] && forall i :: 0 <= i < |digits| ==> IsDigit(digits[i])
    requires Words(command) == ["hit", "0d" + digits]
    ensures Dispatch(command, creatures) == RollToHit(ToI(digits))
  {
    ToIDecimalPrefix(digits);
  }

  /** Any other line names a creature and then one of its macros, each
      resolved with `get_phrase`; a name that resolves to no creature, or to
      no macro, shows nothing. */
  lemma MacroRoute<M>(command: string, creatures: Dict<Dict<M>>, found: Resolution, chosen: Resolution)
    requires !IsKeyword(Head(command)) && creatures.keys != []
    requires GetPhrase(command, creatures.keys) == Success(found)
    requires found.phrase in creatures.at ==>
               creatures.at[found.phrase].keys != [] &&
               GetPhrase(found.rest, creatures.at[found.phrase].keys) == Success(chosen)
    ensures found.phrase !in creatures.at ==> Dispatch(command, creatures) == Nothing
    ensures found.phrase in creatures.at ==>
              Dispatch(command, creatures) ==
                (if chosen.phrase in creatures.at[found.phrase].at then RunMacro(found.phrase, chosen.phrase) else Nothing)
  {
  }

  /** An empty line, with one creature that has one macro, runs that macro:
      both `get_phrase` calls fall back to the only phrase there is. */
  lemma EmptyLineRunsSoleMacro<M>(command: string, creatures: Dict<Dict<M>>, c: string, m: string)
    requires Words(command) == []
    requires Valid(creatures) && creatures.keys == [c]
    requires Valid(creatures.at[c]) && creatures.at[c].keys == [m]
    ensures Dispatch(command, creatures) == RunMacro(c, m)
  {
    EmptyCommandSelectsOnlyPhrase(command, [c]);
    assert Words("") == [];
    EmptyCommandSelectsOnlyPhrase("", [m]);
    assert Head(command) == None;
    MacroRoute(command, creatures, Resolution(c, ""), Resolution(m, ""));
  }

  /** macros.rb runs the same dispatch over each creature's action table: a
      macro it runs is an action of a creature on the roster. */
  lemma SheetDispatch(command: string, roster: Dict<Creatures.Sheet>)
    ensures var r := Dispatch(command, Creatures.ActionTables(roster));
            r.RunMacro? ==> r.creature in roster.at && r.macro in roster.at[r.creature].actions.at
  {
    var tables := Creatures.ActionTables(roster);
    var r := Dispatch(command, tables);
    if r.RunMacro? {
      assert Get(tables, r.creature) == Some(roster.at[r.creature].actions);
    }
  }
}
