/** The category-rule editor of the settings panel: the rule list, the
    draft of a new rule and the rule being edited, with the handlers that
    replace them. */
module SettingsPanel {
  import opened Wrappers
  import opened Seqs
  import opened SettingsService

  /** A rule without its id: the form for a new rule. */
  datatype RuleDraft = RuleDraft(name: string, pattern: string, category: string, ruleType: RuleType)

  /** `Partial<CategoryRule>`: the fields an update overwrites. */
  datatype RulePatch = RulePatch(id: Option<string>, name: Option<string>, pattern: Option<string>,
                                 category: Option<string>, ruleType: Option<RuleType>)

  function EmptyDraft(): RuleDraft { RuleDraft("", "", "", Extension) }

  /** The rules the panel starts with: the first three default rules. */
  function InitialRules(): (r: seq<CategoryRule>)
    ensures |r| == 3 && r == DefaultSettings().categoryRules[..3]
    ensures forall i :: 0 <= i < 3 ==> r[i].id == [('1' as int + i) as char]
  {
    [CategoryRule("1", "Executable Files", "exe,msi,app", "Applications", Extension),
     CategoryRule("2", "Setup Files", "*setup*,*install*", "Installers", Filename),
     CategoryRule("3", "Document Files", "pdf,doc,docx,txt", "Documents", Extension)]
  }

  function Override<T>(field: Option<T>, current: T): T
  {
    if field.Some? then field.value else current
  }

  /** `{ ...rule, ...patch }`. */
  function Apply(rule: CategoryRule, patch: RulePatch): (r: CategoryRule)
    ensures patch.id.None? ==> r.id == rule.id
    ensures patch.name.None? ==> r.name == rule.name
    ensures patch.pattern.None? ==> r.pattern == rule.pattern
    ensures patch.category.None? ==> r.category == rule.category
    ensures patch.ruleType.None? ==> r.ruleType == rule.ruleType
    ensures patch.id.Some? ==> r.id == patch.id.value
    ensures patch.name.Some? ==> r.name == patch.name.value
    ensures patch.pattern.Some? ==> r.pattern == patch.pattern.value
    ensures patch.category.Some? ==> r.category == patch.category.value
    ensures patch.ruleType.Some? ==> r.ruleType == patch.ruleType.value
  {
    CategoryRule(Override(patch.id, rule.id), Override(patch.name, rule.name), Override(patch.pattern, rule.pattern),
                 Override(patch.category, rule.category), Override(patch.ruleType, rule.ruleType))
  }

  /** Applying the same patch twice is applying it once. */
  lemma ApplyIdempotent(rule: CategoryRule, patch: RulePatch)
    ensures Apply(Apply(rule, patch), patch) == Apply(rule, patch)
  {
  }

  function HasOtherId(id: string): CategoryRule -> bool { (rule: CategoryRule) => rule.id != id }

  /** The list after `handleDeleteRule(id)`. */
  function RemoveRule(rules: seq<CategoryRule>, id: string): (r: seq<CategoryRule>)
    ensures forall rule :: rule in r <==> rule in rules && rule.id != id
  {
    Filter(rules, HasOtherId(id))
  }

  /** Deleting keeps the other rules in their order, and deleting an id no
      rule has changes nothing. */
  lemma RemoveRuleKeepsOrder(rules: seq<CategoryRule>, id: string)
    ensures SubSeq(RemoveRule(rules, id), rules)
    ensures (forall i :: 0 <= i < |rules| ==> rules[i].id != id) ==> RemoveRule(rules, id) == rules
  {
    FilterIsSubSeq(rules, HasOtherId(id));
    if forall i :: 0 <= i < |rules| ==> rules[i].id != id {
      FilterKeepsAll(rules, HasOtherId(id));
    }
  }

  /** The list after `handleUpdateRule(id, patch)`: same length and order,
      the rules with that id patched, every other rule as it was. */
  function UpdateRules(rules: seq<CategoryRule>, id: string, patch: RulePatch): (r: seq<CategoryRule>)
    ensures |r| == |rules|
    ensures forall i :: 0 <= i < |rules| && rules[i].id != id ==> r[i] == rules[i]
    ensures forall i :: 0 <= i < |rules| && rules[i].id == id ==> r[i] == Apply(rules[i], patch)
  {
    seq(|rules|, i requires 0 <= i < |rules| => if rules[i].id == id then Apply(rules[i], patch) else rules[i])
  }

  /** Repeating an update changes nothing more, whether or not the patch
      renames the rule. */
  lemma UpdateRulesIdempotent(rules: seq<CategoryRule>, id: string, patch: RulePatch)
    ensures UpdateRules(UpdateRules(rules, id, patch), id, patch) == UpdateRules(rules, id, patch)
  {
    var once := UpdateRules(rules, id, patch);
    var twice := UpdateRules(once, id, patch);
    forall i | 0 <= i < |rules| ensures twice[i] == once[i] {
      if rules[i].id == id {
        ApplyIdempotent(rules[i], patch);
      }
    }
  }

  /** An update that does not touch the id keeps every id where it was. */
  lemma UpdateRulesKeepsIds(rules: seq<CategoryRule>, id: string, patch: RulePatch)
    requires patch.id.None?
    ensures forall i :: 0 <= i < |rules| ==> UpdateRules(rules, id, patch)[i].id == rules[i].id
  {
  }

  /** `editingRule` after `handleEditRule(id)`. */
  function ToggleEditing(editing: Option<string>, id: string): (r: Option<string>)
    ensures r == Some(id) <==> editing != Some(id)
    ensures r != Some(id) ==> r == None
  {
    if editing == Some(id) then None else Some(id)
  }

  /** Pressing edit twice on the same rule restores the state, unless
      another rule was being edited (then it ends with none). */
  lemma ToggleEditingTwice(editing: Option<string>, id: string)
    ensures editing == None || editing == Some(id) ==> ToggleEditing(ToggleEditing(editing, id), id) == editing
    ensures editing != None && editing != Some(id) ==> ToggleEditing(ToggleEditing(editing, id), id) == None
  {
  }

  /** The panel's state. */
  class RuleEditor {
    var defaultScanPath: string
    var categoryRules: seq<CategoryRule>
    var newRule: RuleDraft
    var editingRule: Option<string>

    constructor()
      ensures defaultScanPath == "" && categoryRules == InitialRules()
      ensures newRule == EmptyDraft() && editingRule == None
    {
      defaultScanPath := "";
      categoryRules := InitialRules();
      newRule := EmptyDraft();
      editingRule := None;
    }

    /** `handleAddRule`, `id` being the clock reading as text: append the
        draft when its name, pattern and category are all non-empty, then
        clear the draft; otherwise change nothing. */
    method HandleAddRule(id: string)
      modifies this`categoryRules, this`newRule
      ensures old(newRule.name) != "" && old(newRule.pattern) != "" && old(newRule.category) != "" ==>
        categoryRules == old(categoryRules) + [CategoryRule(id, old(newRule.name), old(newRule.pattern), old(newRule.category), old(newRule.ruleType))]
        && newRule == EmptyDraft()
      ensures old(newRule.name) == "" || old(newRule.pattern) == "" || old(newRule.category) == "" ==>
        categoryRules == old(categoryRules) && newRule == old(newRule)
    {
      if newRule.name != "" && newRule.pattern != "" && newRule.category != "" {
        categoryRules := categoryRules + [CategoryRule(id, newRule.name, newRule.pattern, newRule.category, newRule.ruleType)];
        newRule := EmptyDraft();
      }
    }

    /** `handleDeleteRule`: drop every rule with the id, keep the others in order. */
    method HandleDeleteRule(id: string)
      modifies this`categoryRules
      ensures categoryRules == RemoveRule(old(categoryRules), id)
      ensures SubSeq(categoryRules, old(categoryRules))
      ensures forall i :: 0 <= i < |categoryRules| ==> categoryRules[i].id != id
    {
      RemoveRuleKeepsOrder(categoryRules, id);
      categoryRules := RemoveRule(categoryRules, id);
    }

    /** `handleEditRule`: stop editing the rule if it is being edited,
        otherwise edit it. */
    method HandleEditRule(id: string)
      modifies this`editingRule
      ensures editingRule == ToggleEditing(old(editingRule), id)
    {
      editingRule := if editingRule == Some(id) then None else Some(id);
    }

    /** `handleUpdateRule`: overwrite the supplied fields of the rules with the id. */
    method HandleUpdateRule(id: string, patch: RulePatch)
      modifies this`categoryRules
      ensures categoryRules == UpdateRules(old(categoryRules), id, patch)
    {
      categoryRules := UpdateRules(categoryRules, id, patch);
    }
  }
}
