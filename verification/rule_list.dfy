/** The list of rules the application page holds: adding a default rule,
    removing and replacing rules by id, and the guard that refuses to save
    an empty list. Both application components (the one with a plain array
    and the one with a signal) perform the same list updates, so one model
    serves both. */
module RuleList {
  import opened Wrappers
  import opened Seqs
  import opened ScheduleModel
  import opened ScheduleGenerator
  import opened RuleEditor

  /** The rule `addRule` creates: no weekday chosen, the morning slot. The
      id (`Date.now()` in the application) is a parameter. */
  function DefaultRule(id: int): ScheduleRule {
    ScheduleRule(id, Weekly(NoDays), TimePattern(TimeRange, Some([MorningSlot])))
  }

  /** A new rule has the editor's shape and says nothing yet. */
  lemma DefaultRuleSilent(id: int, currentYear: nat)
    ensures RuleShape(DefaultRule(id))
    ensures DayPart(DefaultRule(id).dayPattern, currentYear) == ""
  {
  }

  /** `addRule`: the earlier rules unchanged, then one default rule. */
  function AddRule(rules: seq<ScheduleRule>, id: int): (r: seq<ScheduleRule>)
    ensures |r| == |rules| + 1
    ensures r[..|rules|] == rules
    ensures r[|rules|] == DefaultRule(id)
  {
    rules + [DefaultRule(id)]
  }

  /** Adding a rule does not change the schedule's text. */
  lemma AddRuleKeepsText(rules: seq<ScheduleRule>, id: int, currentYear: nat)
    requires AllWellFormed(rules)
    ensures AllWellFormed(AddRule(rules, id))
    ensures Generate(AddRule(rules, id), currentYear) == Generate(rules, currentYear)
  {
    DefaultRuleSilent(id, currentYear);
    GenerateSingle(DefaultRule(id), currentYear);
    GenerateAppend(rules, [DefaultRule(id)], currentYear);
  }

  /** The rules that `filter(rule => rule.id !== idToRemove)` keeps. */
  function OtherId(id: int): ScheduleRule -> bool {
    (rule: ScheduleRule) => rule.id != id
  }

  /** `removeRule`: every rule with the id goes, every other rule stays. */
  function RemoveRule(rules: seq<ScheduleRule>, id: int): (r: seq<ScheduleRule>)
    ensures forall x :: x in r <==> x in rules && x.id != id
    ensures forall i :: 0 <= i < |r| ==> r[i].id != id
  {
    Filter(rules, OtherId(id))
  }

  /** Removal keeps the remaining rules in their order and as often as they
      occurred. */
  lemma RemoveRuleKeepsOthers(rules: seq<ScheduleRule>, id: int)
    ensures IsSubsequence(RemoveRule(rules, id), rules)
    ensures forall x :: multiset(RemoveRule(rules, id))[x] == if x.id != id then multiset(rules)[x] else 0
  {
    FilterIsSubsequence(rules, OtherId(id));
    FilterCounts(rules, OtherId(id));
  }

  /** Removing the rule just added, under an id no earlier rule has, gives
      the list back. */
  lemma RemoveUndoesAdd(rules: seq<ScheduleRule>, id: int)
    requires forall i :: 0 <= i < |rules| ==> rules[i].id != id
    ensures RemoveRule(AddRule(rules, id), id) == rules
  {
    FilterAppend(rules, [DefaultRule(id)], OtherId(id));
    FilterKeepsAll(rules, OtherId(id));
    assert Filter([DefaultRule(id)], OtherId(id)) == [];
  }

  /** `updateRule`: every rule with the updated rule's id is replaced by it;
      the others and the positions stay. */
  function UpdateRule(rules: seq<ScheduleRule>, updated: ScheduleRule): (r: seq<ScheduleRule>)
    ensures |r| == |rules|
    ensures forall i :: 0 <= i < |rules| ==> r[i].id == rules[i].id
    ensures forall i :: 0 <= i < |rules| && rules[i].id != updated.id ==> r[i] == rules[i]
    ensures forall i :: 0 <= i < |rules| && rules[i].id == updated.id ==> r[i] == updated
  {
    seq(|rules|, i requires 0 <= i < |rules| => if rules[i].id == updated.id then updated else rules[i])
  }

  /** Updating twice with the same rule is updating once. */
  lemma UpdateIdempotent(rules: seq<ScheduleRule>, updated: ScheduleRule)
    ensures UpdateRule(UpdateRule(rules, updated), updated) == UpdateRule(rules, updated)
  {
  }

  /** An update whose id is not in the list changes nothing. */
  lemma UpdateAbsentId(rules: seq<ScheduleRule>, updated: ScheduleRule)
    requires forall i :: 0 <= i < |rules| ==> rules[i].id != updated.id
    ensures UpdateRule(rules, updated) == rules
  {
  }

  /** The list holds only rules of the editor's shape. */
  predicate AllShaped(rules: seq<ScheduleRule>) {
    forall i :: 0 <= i < |rules| ==> RuleShape(rules[i])
  }

  /** Adding, removing and updating with a rule an editor emitted keep every
      rule of the list in shape, so the schedule's text is always defined. */
  lemma ListOperationsKeepShape(rules: seq<ScheduleRule>, id: int, updated: ScheduleRule)
    requires AllShaped(rules) && RuleShape(updated)
    ensures AllShaped(AddRule(rules, id))
    ensures AllShaped(RemoveRule(rules, id))
    ensures AllShaped(UpdateRule(rules, updated))
    ensures AllWellFormed(rules)
  {
    DefaultRuleSilent(id, 0);
    var removed := RemoveRule(rules, id);
    forall i | 0 <= i < |removed|
      ensures RuleShape(removed[i])
    {
      assert removed[i] in rules;
    }
  }

  // ---------------------------------------------------------------------------
  // saving

  datatype SaveStatus = Idle | Saving | Success | Failed

  /** `saveStatus` and `saveMessage`. */
  datatype SaveState = SaveState(status: SaveStatus, message: string)

  /** The page's save state after the click and the rules sent to the
      server, if any. */
  datatype SaveOutcome = SaveOutcome(state: SaveState, request: Option<seq<ScheduleRule>>)

  /** The synchronous part of `saveToAPI`: an empty list is refused with an
      error message and nothing is sent; otherwise the whole list is sent
      and the page shows that saving is in progress. */
  function SaveToApi(rules: seq<ScheduleRule>): (o: SaveOutcome)
    ensures o.request.None? <==> |rules| == 0
    ensures |rules| == 0 ==> o.state == SaveState(Failed, "Aucune règle à sauvegarder")
    ensures |rules| > 0 ==> o.state.status == Saving && o.request == Some(rules)
  {
    if |rules| == 0 then SaveOutcome(SaveState(Failed, "Aucune règle à sauvegarder"), None)
    else SaveOutcome(SaveState(Saving, "Sauvegarde en cours..."), Some(rules))
  }

  /** Removing the only rule leaves nothing to save. */
  lemma RemovingLastRuleBlocksSave(rule: ScheduleRule)
    ensures SaveToApi(RemoveRule([rule], rule.id)).request.None?
  {
    assert Filter([rule], OtherId(rule.id)) == [];
  }
}
