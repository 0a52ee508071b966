/** The creatures of the macros file, as each script builds them from the
    parsed file. dandy.rb gives a creature a table of macros: one per
    action under the action's lower-cased name, then one per ability score
    under "roll " and the ability. macros.rb gives it the six ability
    modifiers and a table of actions under their lower-cased names. */
module Creatures {

  import opened Wrappers
  import opened RubyString
  import opened RubyHash
  import opened Dice

  /** An action's entry in the file: `[attack_mod, damage_notation, damage_type]`. */
  datatype ActionInfo = ActionInfo(attackMod: int, damage: string, damageType: string)

  /** A creature's entry in the file: its integer-valued fields (the ability
      scores among them) and its "actions", each in file order. */
  datatype CreatureInfo = CreatureInfo(scores: seq<(string, int)>, actions: seq<(string, ActionInfo)>)

  const Abilities: seq<string> := ["str", "dex", "con", "int", "wis", "cha"]

  /** A stored action keeps its name as the file spells it. */
  datatype Action = Action(name: string, info: ActionInfo)

  /** What a dandy.rb macro does when it is called. */
  datatype Macro = Attack(action: Action) | Check(ability: string, score: int)

  // ---------------------------------------------------------------------
  // dandy.rb: `Creature#initialize`
  // ---------------------------------------------------------------------

  /** The actions under their lower-cased names, in file order: what both
      scripts store with `table[name.downcase] = ...`. */
  function ActionEntries(actions: seq<(string, ActionInfo)>): seq<(string, Action)> {
    seq(|actions|, i requires 0 <= i < |actions| => (Lower(actions[i].0), Action(actions[i].0, actions[i].1)))
  }

  /** Lines 95-102: one attack macro per action, under the lower-cased name. */
  function AttackEntries(actions: seq<(string, ActionInfo)>): seq<(string, Macro)> {
    var es := ActionEntries(actions);
    seq(|es|, i requires 0 <= i < |es| => (es[i].0, Attack(es[i].1)))
  }

  /** Lines 104-113: one macro per field named after an ability. */
  function CheckEntries(scores: seq<(string, int)>): seq<(string, Macro)> {
    if scores == [] then []
    else
      var last := scores[|scores| - 1];
      CheckEntries(scores[..|scores| - 1]) +
      (if last.0 in Abilities then [("roll " + last.0, Check(last.0, last.1))] else [])
  }

  /** `@macros` of a dandy.rb creature. */
  function MacroTable(info: CreatureInfo): (t: Dict<Macro>)
    requires DistinctKeys(info.actions)
    ensures Valid(t)
    ensures PutAll(Empty(), AttackEntries(info.actions)).keys <= t.keys
  {
    PutAll(PutAll(Empty(), AttackEntries(info.actions)), CheckEntries(info.scores))
  }

  lemma RollKeyInjective(a: string, b: string)
    requires "roll " + a == "roll " + b
    ensures a == b
  {
    assert a == ("roll " + a)[5..];
    assert b == ("roll " + b)[5..];
  }

  /** Some field of `scores` is an ability whose check is stored under `key`. */
  predicate ChecksUnder(scores: seq<(string, int)>, key: string) {
    exists j :: 0 <= j < |scores| && scores[j].0 in Abilities && key == "roll " + scores[j].0
  }

  lemma ChecksUnderSnoc(scores: seq<(string, int)>, key: string)
    requires scores != []
    ensures var n := |scores| - 1;
            ChecksUnder(scores, key) <==>
              ChecksUnder(scores[..n], key) || (scores[n].0 in Abilities && key == "roll " + scores[n].0)
  {
    var n := |scores| - 1;
    var init := scores[..n];
    if ChecksUnder(init, key) {
      var j :| 0 <= j < |init| && init[j].0 in Abilities && key == "roll " + init[j].0;
      assert scores[j] == init[j];
    }
    if ChecksUnder(scores, key) {
      var j :| 0 <= j < |scores| && scores[j].0 in Abilities && key == "roll " + scores[j].0;
      if j < n {
        assert init[j] == scores[j];
      }
    }
  }

  /** The check macros are stored under "roll " and an ability the creature
      has a score for, and nothing else. */
  lemma {:induction false} CheckEntriesKeys(scores: seq<(string, int)>, key: string)
    ensures Mentions(CheckEntries(scores), key) <==> ChecksUnder(scores, key)
  {
    if scores != [] {
      var n := |scores| - 1;
      var init := scores[..n];
      var last := scores[n];
      CheckEntriesKeys(init, key);
      ChecksUnderSnoc(scores, key);
      if last.0 in Abilities {
        var e := ("roll " + last.0, Check(last.0, last.1));
        assert CheckEntries(scores) == CheckEntries(init) + [e];
        MentionsAppendOne(CheckEntries(init), e, key);
      } else {
        assert CheckEntries(scores) == CheckEntries(init);
      }
    }
  }


  /** Some action's lower-cased name is `key`. */
  predicate NamesAction(actions: seq<(string, ActionInfo)>, key: string) {
    exists i :: 0 <= i < |actions| && Lower(actions[i].0) == key
  }

  lemma ActionEntriesKeys(actions: seq<(string, ActionInfo)>, key: string)
    ensures Mentions(ActionEntries(actions), key) <==> NamesAction(actions, key)
  {
    var es := ActionEntries(actions);
    if NamesAction(actions, key) {
      var i :| 0 <= i < |actions| && Lower(actions[i].0) == key;
      assert es[i].0 == key;
    }
  }

  lemma AttackEntriesKeys(actions: seq<(string, ActionInfo)>, key: string)
    ensures Mentions(AttackEntries(actions), key) <==> NamesAction(actions, key)
  {
    ActionEntriesKeys(actions, key);
    var es := ActionEntries(actions);
    var ms := AttackEntries(actions);
    if Mentions(es, key) {
      var i :| 0 <= i < |es| && es[i].0 == key;
      assert ms[i].0 == key;
    }
    if Mentions(ms, key) {
      var i :| 0 <= i < |ms| && ms[i].0 == key;
      assert es[i].0 == key;
    }
  }

  /** The macro table's keys are the lower-cased action names and "roll "
      followed by each ability the creature has a score for. */
  lemma MacroKeys(info: CreatureInfo, key: string)
    requires DistinctKeys(info.actions)
    ensures key in MacroTable(info).keys <==> NamesAction(info.actions, key) || ChecksUnder(info.scores, key)
  {
    var attacks := AttackEntries(info.actions);
    PutAllKeys(Empty<Macro>(), attacks, key);
    PutAllKeys(PutAll(Empty<Macro>(), attacks), CheckEntries(info.scores), key);
    CheckEntriesKeys(info.scores, key);
    AttackEntriesKeys(info.actions, key);
  }

  /** Adding one score to the end changes the check macros only under that
      score's own key. */
  lemma CheckEntriesStep(d: Dict<Macro>, scores: seq<(string, int)>, key: string)
    requires Valid(d) && scores != []
    ensures var n := |scores| - 1;
            var last := scores[n];
            var now := Get(PutAll(d, CheckEntries(scores)), key);
            && (last.0 in Abilities && key == "roll " + last.0 ==> now == Some(Check(last.0, last.1)))
            && (!(last.0 in Abilities && key == "roll " + last.0) ==> now == Get(PutAll(d, CheckEntries(scores[..n])), key))
  {
    var n := |scores| - 1;
    var last := scores[n];
    var before := CheckEntries(scores[..n]);
    if last.0 in Abilities {
      PutAllSnoc(d, before, ("roll " + last.0, Check(last.0, last.1)));
    } else {
      assert CheckEntries(scores) == before;
    }
  }

  /** The last score a creature lists for an ability is what its check
      macro rolls with, whatever actions it has: an action called, say,
      "Roll Str" is replaced by the check. */
  lemma {:induction false} CheckEntriesValue(d: Dict<Macro>, scores: seq<(string, int)>, j: nat)
    requires Valid(d) && j < |scores| && scores[j].0 in Abilities
    requires forall l :: j < l < |scores| ==> scores[l].0 != scores[j].0
    ensures Get(PutAll(d, CheckEntries(scores)), "roll " + scores[j].0) == Some(Check(scores[j].0, scores[j].1))
    decreases |scores|, 1
  {
    var n := |scores| - 1;
    var key := "roll " + scores[j].0;
    if j == n {
      CheckEntriesStep(d, scores, key);
    } else {
      CheckEntriesEarlier(d, scores, j);
      if "roll " + scores[n].0 == key {
        RollKeyInjective(scores[n].0, scores[j].0);
      }
      CheckEntriesStep(d, scores, key);
    }
  }

  lemma {:induction false} CheckEntriesEarlier(d: Dict<Macro>, scores: seq<(string, int)>, j: nat)
    requires Valid(d) && j + 1 < |scores| && scores[j].0 in Abilities
    requires forall l :: j < l < |scores| ==> scores[l].0 != scores[j].0
    ensures Get(PutAll(d, CheckEntries(scores[..|scores| - 1])), "roll " + scores[j].0) == Some(Check(scores[j].0, scores[j].1))
    decreases |scores|, 0
  {
    var init := scores[..|scores| - 1];
    assert init[j] == scores[j];
    forall l | j < l < |init|
      ensures init[l].0 != init[j].0
    {
      assert init[l] == scores[l];
    }
    CheckEntriesValue(d, init, j);
  }

  lemma CheckMacro(info: CreatureInfo, j: nat)
    requires DistinctKeys(info.actions)
    requires j < |info.scores| && info.scores[j].0 in Abilities
    requires forall l :: j < l < |info.scores| ==> info.scores[l].0 != info.scores[j].0
    ensures Get(MacroTable(info), "roll " + info.scores[j].0) == Some(Check(info.scores[j].0, info.scores[j].1))
  {
    CheckEntriesValue(PutAll(Empty(), AttackEntries(info.actions)), info.scores, j);
  }

  /** An action's macro is the last action with that lower-cased name,
      unless a check macro has the same key. */
  lemma AttackMacro(info: CreatureInfo, i: nat)
    requires DistinctKeys(info.actions)
    requires i < |info.actions|
    requires forall l :: i < l < |info.actions| ==> Lower(info.actions[l].0) != Lower(info.actions[i].0)
    requires !ChecksUnder(info.scores, Lower(info.actions[i].0))
    ensures Get(MacroTable(info), Lower(info.actions[i].0)) == Some(Attack(Action(info.actions[i].0, info.actions[i].1)))
  {
    var attacks := AttackEntries(info.actions);
    var key := Lower(info.actions[i].0);
    PutAllLastWins(Empty(), attacks, i);
    CheckEntriesKeys(info.scores, key);
    PutAllUntouched(PutAll(Empty(), attacks), CheckEntries(info.scores), key);
  }

  // ---------------------------------------------------------------------
  // dandy.rb: calling a macro
  // ---------------------------------------------------------------------

  /** What a macro call reports, before it is formatted. */
  datatype MacroOutcome =
    | Attacked(action: Action, hit: HitResult, damage: RollResult)
    | Checked(ability: string, roll: RollResult)

  /** The draws a macro call consumes fit it: for an attack, the d20s of the
      roll to hit and the damage dice; for a check, the one d20. */
  predicate MacroDraws(m: Macro, d20s: seq<int>, draws: seq<int>) {
    match m
    case Attack(a) => D20Draws(d20s) && DrawsFit(a.info.damage, draws)
    case Check(_, _) => |draws| == 1 && 1 <= draws[0] <= 20
  }

  /** Calling a macro (dandy.rb lines 96-101 and 107-111; `Macros.macro`
      in macros.rb lines 85-90 is the attack case). Damage is rolled first,
      so a damage notation that raises stops the call before the roll to
      hit. */
  function CallMacro(m: Macro, d20s: seq<int>, draws: seq<int>): (r: Result<MacroOutcome, RollError>)
    requires MacroDraws(m, d20s, draws)
    ensures m.Check? ==> r == Success(Checked(m.ability, RollResult(Mod(m.score) + draws[0], draws, Mod(m.score))))
    ensures m.Attack? ==> (r.Failure? <==> Roll(m.action.info.damage, draws).Failure?)
    ensures m.Attack? && r.Failure? ==> r.error == Roll(m.action.info.damage, draws).error
    ensures m.Attack? && r.Success? ==>
              r.value.Attacked? && r.value.action == m.action &&
              r.value.damage == Roll(m.action.info.damage, draws).value &&
              r.value.hit == Hit(m.action.info.attackMod, d20s)
  {
    match m
    case Attack(a) => CallAttack(a, d20s, draws)
    case Check(ability, score) =>
      assert draws == [draws[0]];
      Success(CallCheck(ability, score, draws[0]))
  }

  /** dandy.rb lines 96-101: roll the damage, then roll to hit. */
  function CallAttack(a: Action, d20s: seq<int>, draws: seq<int>): (r: Result<MacroOutcome, RollError>)
    requires D20Draws(d20s) && DrawsFit(a.info.damage, draws)
    ensures r.Failure? <==> Roll(a.info.damage, draws).Failure?
    ensures r.Failure? ==> r.error == Roll(a.info.damage, draws).error
    ensures r.Success? ==> r.value == Attacked(a, Hit(a.info.attackMod, d20s), Roll(a.info.damage, draws).value)
  {
    match Roll(a.info.damage, draws)
    case Failure(e) => Failure(e)
    case Success(damage) => Success(Attacked(a, Hit(a.info.attackMod, d20s), damage))
  }

  /** dandy.rb lines 107-111: roll "1d20 + " and the modifier. */
  function CallCheck(ability: string, score: int, d: int): (r: MacroOutcome)
    requires 1 <= d <= 20
    ensures r == Checked(ability, RollResult(Mod(score) + d, [d], Mod(score)))
  {
    AbilityRoll(score, d);
    Checked(ability, Roll(AbilityNotation(score), [d]).value)
  }

  // ---------------------------------------------------------------------
  // macros.rb: `Creature#initialize`
  // ---------------------------------------------------------------------

  /** `info[k]` on the parsed file: the last field named `k`, or `nil`. */
  function ScoreOf(scores: seq<(string, int)>, k: string): Option<int> {
    if scores == [] then None
    else if scores[|scores| - 1].0 == k then Some(scores[|scores| - 1].1)
    else ScoreOf(scores[..|scores| - 1], k)
  }

  /** Some field of `scores` is named `k`. */
  predicate HasField(scores: seq<(string, int)>, k: string) {
    exists i :: 0 <= i < |scores| && scores[i].0 == k
  }

  /** `info[k]` is `nil` exactly when no field is named `k`. */
  lemma {:induction false} ScoreOfMissing(scores: seq<(string, int)>, k: string)
    ensures ScoreOf(scores, k).None? <==> !HasField(scores, k)
  {
    if scores != [] {
      var n := |scores| - 1;
      var init := scores[..n];
      ScoreOfMissing(init, k);
      if HasField(init, k) {
        var i :| 0 <= i < |init| && init[i].0 == k;
        assert scores[i].0 == k;
      }
      if HasField(scores, k) && scores[n].0 != k {
        var i :| 0 <= i < |scores| && scores[i].0 == k;
        assert init[i].0 == k;
      }
    }
  }

  /** When fields repeat a name, the last one counts. */
  lemma {:induction false} ScoreOfLast(scores: seq<(string, int)>, k: string, i: nat)
    requires i < |scores| && scores[i].0 == k
    requires forall l :: i < l < |scores| ==> scores[l].0 != k
    ensures ScoreOf(scores, k) == Some(scores[i].1)
  {
    var n := |scores| - 1;
    if i < n {
      var init := scores[..n];
      assert init[i] == scores[i];
      forall l | i < l < |init|
        ensures init[l].0 != k
      {
        assert init[l] == scores[l];
      }
      ScoreOfLast(init, k, i);
    }
  }

  /** A macros.rb creature: the six modifiers in the order str, dex, con,
      int, wis, cha, and the actions. */
  datatype Sheet = Sheet(name: string, mods: seq<int>, actions: Dict<Action>)

  /** Every ability has a field. */
  predicate AllScores(scores: seq<(string, int)>) {
    forall k :: 0 <= k < |Abilities| ==> ScoreOf(scores, Abilities[k]).Some?
  }

  /** macros.rb lines 104-123. A missing ability score makes `mod(nil)`
      raise, which is `None`. */
  function BuildSheet(name: string, info: CreatureInfo): (r: Option<Sheet>)
    requires DistinctKeys(info.actions)
    ensures r.None? <==> exists k :: 0 <= k < |Abilities| && ScoreOf(info.scores, Abilities[k]).None?
    ensures r.Some? ==> r.value.name == name && |r.value.mods| == |Abilities| && Valid(r.value.actions)
    ensures r.Some? ==> forall k :: 0 <= k < |Abilities| ==>
              ScoreOf(info.scores, Abilities[k]).Some? && r.value.mods[k] == Mod(ScoreOf(info.scores, Abilities[k]).value)
  {
    if !AllScores(info.scores) then None
    else
      var mods := seq(|Abilities|, k requires 0 <= k < |Abilities| => Mod(ScoreOf(info.scores, Abilities[k]).value));
      Some(Sheet(name, mods, PutAll(Empty(), ActionEntries(info.actions))))
  }

  /** A creature fails to build exactly when the file has no field for one
      of the six abilities. */
  lemma BuildSheetMissing(name: string, info: CreatureInfo)
    requires DistinctKeys(info.actions)
    ensures BuildSheet(name, info).None? <==> exists k :: 0 <= k < |Abilities| && !HasField(info.scores, Abilities[k])
  {
    forall k | 0 <= k < |Abilities|
      ensures ScoreOf(info.scores, Abilities[k]).None? <==> !HasField(info.scores, Abilities[k])
    {
      ScoreOfMissing(info.scores, Abilities[k]);
    }
  }

  /** Each modifier comes from the last field for its ability. */
  lemma BuildSheetMod(name: string, info: CreatureInfo, k: nat, i: nat)
    requires DistinctKeys(info.actions) && BuildSheet(name, info).Some? && k < |Abilities|
    requires i < |info.scores| && info.scores[i].0 == Abilities[k]
    requires forall l :: i < l < |info.scores| ==> info.scores[l].0 != Abilities[k]
    ensures BuildSheet(name, info).value.mods[k] == Mod(info.scores[i].1)
  {
    ScoreOfLast(info.scores, Abilities[k], i);
  }

  /** A macros.rb creature's action table holds exactly its lower-cased
      action names. */
  lemma SheetActionKeys(name: string, info: CreatureInfo, key: string)
    requires DistinctKeys(info.actions) && BuildSheet(name, info).Some?
    ensures key in BuildSheet(name, info).value.actions.keys <==> NamesAction(info.actions, key)
  {
    PutAllKeys(Empty<Action>(), ActionEntries(info.actions), key);
    ActionEntriesKeys(info.actions, key);
  }

  // ---------------------------------------------------------------------
  // `Main#initialize`: the parsed file, and the creatures under their
  // lower-cased names
  // ---------------------------------------------------------------------

  /** The creature file as `JSON.parse` hands it over: a hash, so each
      creature is named once and each creature names each action once. */
  predicate ParsedFile(file: seq<(string, CreatureInfo)>) {
    && DistinctKeys(file)
    && forall i :: 0 <= i < |file| ==> DistinctKeys(file[i].1.actions)
  }

  /** One creature's entry as `JSON.parse` reads it. */
  function ParseCreature(raw: CreatureInfo): (info: CreatureInfo)
    ensures DistinctKeys(info.scores) && DistinctKeys(info.actions)
  {
    CreatureInfo(ParseObject(raw.scores), ParseObject(raw.actions))
  }

  /** `JSON.parse(file)` (dandy.rb line 123, macros.rb line 155), given the
      creatures in the order the text lists them: a creature listed twice
      keeps its first place and its last entry. */
  function ParseFile(raw: seq<(string, CreatureInfo)>): (file: seq<(string, CreatureInfo)>)
    ensures ParsedFile(file)
  {
    var outer := ParseObject(raw);
    seq(|outer|, i requires 0 <= i < |outer| => (outer[i].0, ParseCreature(outer[i].1)))
  }

  /** Of entries for the same exact name, the parsed file keeps the last. */
  lemma ParseFileLastWins(raw: seq<(string, CreatureInfo)>, i: nat, j: nat)
    requires i < |raw|
    requires forall l :: i < l < |raw| ==> raw[l].0 != raw[i].0
    requires j < |ParseFile(raw)| && ParseFile(raw)[j].0 == raw[i].0
    ensures ParseFile(raw)[j].1 == ParseCreature(raw[i].1)
  {
    ParseObjectLastWins(raw, i, j);
  }

  /** The parsed file names exactly the creatures of the text. */
  lemma ParseFileNames(raw: seq<(string, CreatureInfo)>, name: string)
    ensures Mentions(ParseFile(raw), name) <==> Mentions(raw, name)
  {
    ParseObjectNames(raw, name);
    var outer := ParseObject(raw);
    var file := ParseFile(raw);
    if Mentions(outer, name) {
      var i :| 0 <= i < |outer| && outer[i].0 == name;
      assert file[i].0 == name;
    }
    if Mentions(file, name) {
      var i :| 0 <= i < |file| && file[i].0 == name;
      assert outer[i].0 == name;
    }
  }

  lemma ParsedFileInit(file: seq<(string, CreatureInfo)>)
    requires ParsedFile(file) && file != []
    ensures ParsedFile(file[..|file| - 1])
  {
    var init := file[..|file| - 1];
    assert forall i :: 0 <= i < |init| ==> init[i] == file[i];
  }

  function RosterEntries(file: seq<(string, CreatureInfo)>): seq<(string, Dict<Macro>)>
    requires ParsedFile(file)
  {
    seq(|file|, i requires 0 <= i < |file| => (Lower(file[i].0), MacroTable(file[i].1)))
  }

  /** dandy.rb lines 120-128: each creature's macro table under its
      lower-cased name. */
  function Roster(file: seq<(string, CreatureInfo)>): (r: Dict<Dict<Macro>>)
    requires ParsedFile(file)
    ensures Valid(r)
  {
    PutAll(Empty(), RosterEntries(file))
  }

  /** Some creature's lower-cased name is `key`. */
  predicate NamesCreature(file: seq<(string, CreatureInfo)>, key: string) {
    exists j :: 0 <= j < |file| && Lower(file[j].0) == key
  }

  lemma RosterEntriesKeys(file: seq<(string, CreatureInfo)>, key: string)
    requires ParsedFile(file)
    ensures Mentions(RosterEntries(file), key) <==> NamesCreature(file, key)
  {
    var es := RosterEntries(file);
    if NamesCreature(file, key) {
      var j :| 0 <= j < |file| && Lower(file[j].0) == key;
      assert es[j].0 == key;
    }
  }

  /** The roster's keys are the lower-cased creature names. */
  lemma RosterKeys(file: seq<(string, CreatureInfo)>, key: string)
    requires ParsedFile(file)
    ensures key in Roster(file).keys <==> NamesCreature(file, key)
  {
    PutAllKeys(Empty<Dict<Macro>>(), RosterEntries(file), key);
    RosterEntriesKeys(file, key);
  }

  /** Of creatures whose names differ only in case, the last is kept. */
  lemma RosterLastWins(file: seq<(string, CreatureInfo)>, i: nat)
    requires ParsedFile(file) && i < |file|
    requires forall l :: i < l < |file| ==> Lower(file[l].0) != Lower(file[i].0)
    ensures Get(Roster(file), Lower(file[i].0)) == Some(MacroTable(file[i].1))
  {
    PutAllLastWins(Empty(), RosterEntries(file), i);
  }

  /** Some creature of the file lacks an ability score. */
  predicate SomeIncomplete(file: seq<(string, CreatureInfo)>) {
    exists i :: 0 <= i < |file| && !AllScores(file[i].1.scores)
  }

  lemma SomeIncompleteSnoc(file: seq<(string, CreatureInfo)>)
    requires file != []
    ensures var n := |file| - 1;
            SomeIncomplete(file) <==> SomeIncomplete(file[..n]) || !AllScores(file[n].1.scores)
  {
    var n := |file| - 1;
    var init := file[..n];
    if SomeIncomplete(init) {
      var i :| 0 <= i < |init| && !AllScores(init[i].1.scores);
      assert file[i] == init[i];
    }
    if SomeIncomplete(file) {
      var i :| 0 <= i < |file| && !AllScores(file[i].1.scores);
      if i < n {
        assert init[i] == file[i];
      }
    }
  }

  /** macros.rb lines 152-160; `None` when some creature lacks an ability
      score, which makes the constructor raise. */
  function SheetRoster(file: seq<(string, CreatureInfo)>): (r: Option<Dict<Sheet>>)
    requires ParsedFile(file)
    ensures r.None? <==> SomeIncomplete(file)
    ensures r.Some? ==> Valid(r.value)
  {
    if file == [] then Some(Empty())
    else
      var n := |file| - 1;
      SomeIncompleteSnoc(file);
      ParsedFileInit(file);
      match SheetRoster(file[..n])
      case None => None
      case Some(d) =>
        match BuildSheet(file[n].0, file[n].1)
        case None => None
        case Some(sheet) => Some(Put(d, Lower(file[n].0), sheet))
  }

  /** What the shell needs of a macros.rb roster: each creature's action
      table. */
  function ActionTables(roster: Dict<Sheet>): (r: Dict<Dict<Action>>)
    ensures r.keys == roster.keys
    ensures forall k :: k in roster.at ==> Get(r, k) == Some(roster.at[k].actions)
  {
    Dict(roster.keys, map k | k in roster.at :: roster.at[k].actions)
  }
}
