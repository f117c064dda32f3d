/**
 * The validation service: a registry of rules keyed by id in insertion
 * order, the applicability filter and ordered dispatch of `validateGlider`,
 * the exception guard of `validateRule`, and two stand-alone measurement
 * checks.
 */
module Service {
  import opened Wrappers
  import opened OrderedMaps
  import opened Seqs
  import opened Text
  import opened ValidationTypes
  import Appi

  /**
   * Stands in for the engine's text of the `TypeError` that
   * `appiReference.includes(...)` throws when a rule is manufacturer
   * specific but has no reference.
   */
  const MissingReference := "Cannot read properties of undefined (reading 'includes')"

  /**
   * The filter of `validateGlider` for one rule: a rule without the
   * `manufacturerSpecific` property always applies; one with it applies when
   * the property is truthy and its APPI reference contains the manufacturer.
   */
  function Applicable(rule: Rule, manufacturer: string): (r: Result<bool, string>)
    ensures r.Failure? <==> rule.manufacturerSpecific == Some(true) && rule.appiReference.None?
    ensures r == Success(true) <==>
      || rule.manufacturerSpecific.None?
      || (&& rule.manufacturerSpecific == Some(true)
          && rule.appiReference.Some?
          && OccursIn(manufacturer, rule.appiReference.value))
  {
    match rule.manufacturerSpecific
    case None => Success(true)
    case Some(specific) =>
      if !specific then Success(false)
      else
        match rule.appiReference
        case None => Failure(MissingReference)
        case Some(reference) =>
          IncludesIff(reference, manufacturer);
          Success(Includes(reference, manufacturer))
  }

  /** The APPI trim rule declares `manufacturerSpecific: false`, so no glider ever selects it. */
  lemma AppiTrimNeverSelected(manufacturer: string)
    ensures Applicable(Appi.AppiTrimRule, manufacturer) == Success(false)
  {
  }

  /** `Array.from(rules.values()).filter(...)`: the applicable rules in order, or the error the filter throws. */
  function SelectApplicable(rules: seq<Rule>, manufacturer: string): (r: Result<seq<Rule>, string>)
    ensures r.Failure? <==> exists i :: 0 <= i < |rules| && Applicable(rules[i], manufacturer).Failure?
    decreases |rules|
  {
    if |rules| == 0 then Success([])
    else
      var init, last := rules[..|rules| - 1], rules[|rules| - 1];
      match SelectApplicable(init, manufacturer)
      case Failure(e) => Failure(e)
      case Success(kept) =>
        match Applicable(last, manufacturer)
        case Failure(e) => Failure(e)
        case Success(keep) => Success(if keep then kept + [last] else kept)
  }

  /** The positions of the applicable rules, in increasing order. */
  ghost function ApplicablePositions(rules: seq<Rule>, manufacturer: string): (ps: seq<nat>)
    ensures forall k :: 0 <= k < |ps| ==> ps[k] < |rules| && Applicable(rules[ps[k]], manufacturer) == Success(true)
    ensures forall k, l :: 0 <= k < l < |ps| ==> ps[k] < ps[l]
    ensures forall i :: 0 <= i < |rules| && Applicable(rules[i], manufacturer) == Success(true) ==> i in ps
    decreases |rules|
  {
    if |rules| == 0 then []
    else
      var n := |rules| - 1;
      var before := ApplicablePositions(rules[..n], manufacturer);
      assert forall k :: 0 <= k < |before| ==> rules[..n][before[k]] == rules[before[k]];
      if Applicable(rules[n], manufacturer) == Success(true) then before + [n] else before
  }

  /**
   * When the filter succeeds, it keeps exactly the applicable rules, in the
   * order in which they are registered.
   */
  lemma {:induction false} SelectionInRegistryOrder(rules: seq<Rule>, manufacturer: string)
    requires SelectApplicable(rules, manufacturer).Success?
    ensures var selected := SelectApplicable(rules, manufacturer).value;
      var ps := ApplicablePositions(rules, manufacturer);
      |selected| == |ps| && forall k :: 0 <= k < |ps| ==> selected[k] == rules[ps[k]]
    decreases |rules|
  {
    if |rules| > 0 {
      var n := |rules| - 1;
      SelectionInRegistryOrder(rules[..n], manufacturer);
      var ps := ApplicablePositions(rules[..n], manufacturer);
      assert forall k :: 0 <= k < |ps| ==> rules[..n][ps[k]] == rules[ps[k]];
    }
  }

  /** `rule.validate(data)`: how the rule's own code ends. */
  function RunValidate(rule: Rule, data: Payload): Outcome {
    match rule.behaviour
    case AppiTrimCheck => Appi.TrimOutcome(data)
    case Custom(validate) => validate(data)
  }

  const ErrorPrefix := "Validation error: "

  /** The `catch` of `validateRule`: a thrown value becomes a failed result carrying its message. */
  function Guard(outcome: Outcome): (r: ValidationResult)
    ensures outcome.Returned? ==> r == outcome.result
    ensures outcome.Threw? ==>
      && r.status == Fail && r.details == None
      && ErrorPrefix <= r.message && r.message[|ErrorPrefix|..] == ErrorText(outcome.error)
  {
    match outcome
    case Returned(result) => result
    case Threw(ErrorObject(message)) => ValidationResult(Fail, ErrorPrefix + message, None)
    case Threw(NonError) => ValidationResult(Fail, ErrorPrefix + "Unknown error", None)
  }

  /** What `validateRule(rule, data)` resolves to. */
  function RuleResult(rule: Rule, data: Payload): ValidationResult {
    Guard(RunValidate(rule, data))
  }

  /**
   * `validateRule`: the rule's own result when its `validate` returns, and a
   * failure whose message begins "Validation error: " when it throws; no
   * exception escapes.
   */
  method ValidateRule(rule: Rule, data: Payload) returns (r: ValidationResult)
    ensures r == RuleResult(rule, data)
    ensures RunValidate(rule, data).Returned? ==> r == RunValidate(rule, data).result
    ensures RunValidate(rule, data).Threw? ==>
      && r.status == Fail && r.details == None
      && ErrorPrefix <= r.message
      && r.message[|ErrorPrefix|..] == ErrorText(RunValidate(rule, data).error)
  {
    var outcome: Outcome;
    match rule.behaviour {
      case AppiTrimCheck =>
        outcome := Appi.Validate(data);
      case Custom(validate) =>
        outcome := validate(data);
    }
    match outcome {
      case Returned(result) =>
        r := result;
      case Threw(error) =>
        var text := if error.ErrorObject? then error.message else "Unknown error";
        r := ValidationResult(Fail, ErrorPrefix + text, None);
    }
  }

  /** The text a failed result shows for a thrown value. */
  function ErrorText(error: ErrorValue): string {
    match error
    case ErrorObject(message) => message
    case NonError => "Unknown error"
  }

  function RunWith(data: Payload): Rule -> ValidationResult {
    rule => RuleResult(rule, data)
  }

  /** What `validateGlider` resolves to for a registry and a glider context, or the error it rejects with. */
  ghost function GliderResults(rules: OrderedMap<string, Rule>, context: GliderContext): Result<seq<ValidationResult>, string>
    requires rules.Valid()
  {
    match SelectApplicable(rules.Values(), context.manufacturer)
    case Failure(e) => Failure(e)
    case Success(selected) => Success(MapSeq(selected, RunWith(GliderData(context))))
  }

  /**
   * `validateGlider` rejects exactly when testing some registered rule
   * throws; otherwise it gives one guarded result per selected rule, in order.
   */
  lemma GliderResultsMeaning(rules: OrderedMap<string, Rule>, context: GliderContext)
    requires rules.Valid()
    ensures GliderResults(rules, context).Failure? <==>
      exists i :: 0 <= i < |rules.keys| && Applicable(rules.Values()[i], context.manufacturer).Failure?
    ensures GliderResults(rules, context).Success? ==>
      var selected := SelectApplicable(rules.Values(), context.manufacturer).value;
      && |GliderResults(rules, context).value| == |selected|
      && forall k :: 0 <= k < |selected| ==> GliderResults(rules, context).value[k] == RuleResult(selected[k], GliderData(context))
  {
  }

  /** The rules of a list set one after another, as the constructor's `forEach` does. */
  function Registry(rules: seq<Rule>): (registry: OrderedMap<string, Rule>)
    ensures registry.Valid() && KeyedById(registry)
    decreases |rules|
  {
    if |rules| == 0 then Empty()
    else
      var last := rules[|rules| - 1];
      var before := Registry(rules[..|rules| - 1]);
      SetValid(before, last.id, last);
      before.Set(last.id, last)
  }

  /** Every entry is stored under its own id. */
  ghost predicate KeyedById(m: OrderedMap<string, Rule>) {
    forall k :: k in m.entries ==> m.entries[k].id == k
  }

  /** A list with distinct ids gives a registry whose keys are those ids, in list order. */
  lemma {:induction false} RegistryOfDistinctIds(rules: seq<Rule>)
    requires forall i, j :: 0 <= i < j < |rules| ==> rules[i].id != rules[j].id
    ensures |Registry(rules).keys| == |rules|
    ensures forall i :: 0 <= i < |rules| ==>
      && Registry(rules).keys[i] == rules[i].id
      && rules[i].id in Registry(rules).entries
      && Registry(rules).entries[rules[i].id] == rules[i]
    decreases |rules|
  {
    if |rules| > 0 {
      var n := |rules| - 1;
      var init, last := rules[..n], rules[n];
      RegistryOfDistinctIds(init);
      var before := Registry(init);
      assert last.id !in before.entries by {
        forall i | 0 <= i < n ensures before.keys[i] != last.id {
          assert init[i] == rules[i];
        }
      }
      var after := before.Set(last.id, last);
      assert Registry(rules) == after;
      assert after.keys == before.keys + [last.id];
      forall i | 0 <= i < n
        ensures after.keys[i] == rules[i].id && rules[i].id in after.entries && after.entries[rules[i].id] == rules[i]
      {
        assert init[i] == rules[i];
        assert before.keys[i] == rules[i].id;
      }
    }
  }

  /**
   * `validateLineLength`: fails below the minimum or above the maximum; both
   * bounds are inside the acceptable range.
   */
  function ValidateLineLength(measurement: int, min: int, max: int): (r: ValidationResult)
    ensures r.status == Fail <==> measurement < min || max < measurement
    ensures r.status == Pass <==> min <= measurement <= max
    ensures r.details == None
  {
    if measurement < min then
      ValidationResult(Fail, "Line length " + IntToString(measurement) + "mm is below minimum required "
        + IntToString(min) + "mm", None)
    else if measurement > max then
      ValidationResult(Fail, "Line length " + IntToString(measurement) + "mm exceeds maximum allowed "
        + IntToString(max) + "mm", None)
    else
      ValidationResult(Pass, "Line length " + IntToString(measurement) + "mm is within acceptable range", None)
  }

  /** The largest of a non-empty sequence of lengths (`Math.max(...values)`). */
  function MaxOf(s: seq<int>): (m: int)
    requires |s| > 0
    ensures m in s && forall i :: 0 <= i < |s| ==> s[i] <= m
    decreases |s|
  {
    if |s| == 1 then s[0]
    else
      var rest := MaxOf(s[1..]);
      if s[0] < rest then rest else s[0]
  }

  /** The smallest of a non-empty sequence of lengths (`Math.min(...values)`). */
  function MinOf(s: seq<int>): (m: int)
    requires |s| > 0
    ensures m in s && forall i :: 0 <= i < |s| ==> m <= s[i]
    decreases |s|
  {
    if |s| == 1 then s[0]
    else
      var rest := MinOf(s[1..]);
      if rest < s[0] then rest else s[0]
  }

  /** The message for an empty object: `Math.max()` is `-Infinity` and `Math.min()` is `Infinity`. */
  const EmptyDifferentialMessage := "Line differential -Infinitymm is within acceptable range"

  /**
   * `validateLineDifferential`: fails exactly when some two of the measured
   * lengths differ by more than the allowed differential; which names carry
   * the lengths, and in which order, does not matter. An empty object passes.
   */
  function ValidateLineDifferential(measurements: OrderedMap<string, int>, maxDifferential: int): (r: ValidationResult)
    requires measurements.Valid()
    ensures r.status == Fail <==>
      exists a, b :: a in measurements.entries && b in measurements.entries &&
        measurements.entries[a] - measurements.entries[b] > maxDifferential
    ensures r.status == Pass || r.status == Fail
    ensures r.details == None
    ensures |measurements.keys| == 0 ==> r == ValidationResult(Pass, EmptyDifferentialMessage, None)
  {
    var values := measurements.Values();
    if |values| == 0 then
      ValidationResult(Pass, EmptyDifferentialMessage, None)
    else
      var max, min := MaxOf(values), MinOf(values);
      var differential := max - min;
      SpreadExceedsIff(measurements, maxDifferential);
      if differential > maxDifferential then
        ValidationResult(Fail, "Line differential " + IntToString(differential) + "mm exceeds maximum allowed "
          + IntToString(maxDifferential) + "mm", None)
      else
        ValidationResult(Pass, "Line differential " + IntToString(differential) + "mm is within acceptable range", None)
  }

  /** The spread of the values exceeds a bound exactly when some pair of entries differs by more than it. */
  lemma SpreadExceedsIff(measurements: OrderedMap<string, int>, bound: int)
    requires measurements.Valid() && |measurements.keys| > 0
    ensures var values := measurements.Values();
      MaxOf(values) - MinOf(values) > bound <==>
      exists a, b :: a in measurements.entries && b in measurements.entries &&
        measurements.entries[a] - measurements.entries[b] > bound
  {
    var values := measurements.Values();
    var max, min := MaxOf(values), MinOf(values);
    if max - min > bound {
      var i :| 0 <= i < |values| && values[i] == max;
      var j :| 0 <= j < |values| && values[j] == min;
      var a, b := measurements.keys[i], measurements.keys[j];
      assert measurements.entries[a] - measurements.entries[b] > bound;
    } else {
      forall a, b | a in measurements.entries && b in measurements.entries
        ensures measurements.entries[a] - measurements.entries[b] <= bound
      {
        var i :| 0 <= i < |measurements.keys| && measurements.keys[i] == a;
        var j :| 0 <= j < |measurements.keys| && measurements.keys[j] == b;
        assert values[i] == measurements.entries[a] && values[j] == measurements.entries[b];
      }
    }
  }

  /** The default registry selects no rule for any glider: its only rule is not manufacturer specific. */
  lemma DefaultRegistryRunsNothing(context: GliderContext)
    ensures Registry(Appi.AppiRules).Valid()
    ensures GliderResults(Registry(Appi.AppiRules), context) == Success([])
  {
    var registry := Registry(Appi.AppiRules);
    assert Appi.AppiRules[..0] == [];
    assert Registry(Appi.AppiRules[..0]) == Empty();
    assert Appi.AppiRules[0].id == "APPI_TRIM";
    assert registry == Empty().Set("APPI_TRIM", Appi.AppiTrimRule);
    assert registry.keys == ["APPI_TRIM"];
    assert registry.Values() == [Appi.AppiTrimRule];
    AppiTrimNeverSelected(context.manufacturer);
    assert [Appi.AppiTrimRule][..0] == [];
    assert SelectApplicable(registry.Values(), context.manufacturer) == Success([]);
  }

  /**
   * Adding a rule that applies to every glider under a new id makes
   * `validateGlider` run it after all the rules that were there before.
   */
  lemma AddedGeneralRuleRunsLast(rules: OrderedMap<string, Rule>, rule: Rule, context: GliderContext)
    requires rules.Valid() && rule.id !in rules.entries && rule.manufacturerSpecific.None?
    requires GliderResults(rules, context).Success?
    ensures rules.Set(rule.id, rule).Valid()
    ensures GliderResults(rules.Set(rule.id, rule), context) ==
      Success(GliderResults(rules, context).value + [RuleResult(rule, GliderData(context))])
  {
    SetValid(rules, rule.id, rule);
    SetValues(rules, rule.id, rule);
    var values := rules.Values();
    var extended := values + [rule];
    assert extended[..|extended| - 1] == values;
    var kept := SelectApplicable(values, context.manufacturer).value;
    assert SelectApplicable(extended, context.manufacturer) == Success(kept + [rule]);
    MapSeqExtend(kept + [rule], |kept|, RunWith(GliderData(context)));
    assert (kept + [rule])[..|kept|] == kept;
    assert (kept + [rule])[..|kept| + 1] == kept + [rule];
  }

  class ValidationService {
    /** The registered rules, in `Map` insertion order. */
    var rules: OrderedMap<string, Rule>

    ghost predicate Valid()
      reads this
    {
      rules.Valid() && KeyedById(rules)
    }

    /** Registers the APPI rules, keyed by id, in list order. */
    constructor()
      ensures Valid()
      ensures rules == Registry(Appi.AppiRules)
      ensures rules.keys == ["APPI_TRIM"] && rules.entries == map["APPI_TRIM" := Appi.AppiTrimRule]
    {
      var registry := Empty();
      for i := 0 to |Appi.AppiRules|
        invariant registry == Registry(Appi.AppiRules[..i])
      {
        assert Appi.AppiRules[..i + 1][..i] == Appi.AppiRules[..i];
        registry := registry.Set(Appi.AppiRules[i].id, Appi.AppiRules[i]);
      }
      assert Appi.AppiRules[..|Appi.AppiRules|] == Appi.AppiRules;
        rules := registry;
    }

    /** `addValidationRule`: inserts a new id at the end or replaces an existing one in place; it never fails. */
    method AddValidationRule(rule: Rule)
      requires Valid()
      modifies this
      ensures Valid()
      ensures rules == old(rules).Set(rule.id, rule)
    {
      SetValid(rules, rule.id, rule);
      rules := rules.Set(rule.id, rule);
    }

    /** `updateValidationRule`: replaces an existing rule in place, or throws without changing anything. */
    method UpdateValidationRule(rule: Rule) returns (r: Result<(), string>)
      requires Valid()
      modifies this
      ensures Valid()
      ensures rule.id !in old(rules.entries) ==>
        r == Failure("Validation rule " + rule.id + " not found") && rules == old(rules)
      ensures rule.id in old(rules.entries) ==>
        r == Success(()) && rules == old(rules).Set(rule.id, rule) && rules.keys == old(rules.keys)
    {
      if rule.id !in rules.entries {
        return Failure("Validation rule " + rule.id + " not found");
      }
      SetValid(rules, rule.id, rule);
      rules := rules.Set(rule.id, rule);
      r := Success(());
    }

    /**
     * `validateGlider`: runs every applicable rule, in registry order, with
     * the context as its data, and returns one guarded result per rule.
     */
    method ValidateGlider(context: GliderContext) returns (r: Result<seq<ValidationResult>, string>)
      requires Valid()
      ensures r == GliderResults(rules, context)
      ensures r.Failure? <==>
        exists i :: 0 <= i < |rules.keys| && Applicable(rules.Values()[i], context.manufacturer).Failure?
      ensures r.Success? ==>
        var selected := SelectApplicable(rules.Values(), context.manufacturer).value;
        && |r.value| == |selected|
        && forall k :: 0 <= k < |selected| ==> r.value[k] == RuleResult(selected[k], GliderData(context))
    {
      var selection := SelectApplicable(rules.Values(), context.manufacturer);
      if selection.Failure? {
        return Failure(selection.error);
      }
      var applicableRules := selection.value;
      var data := GliderData(context);
      var results: seq<ValidationResult> := [];
      for i := 0 to |applicableRules|
        invariant results == MapSeq(applicableRules[..i], RunWith(data))
      {
        var result := ValidateRule(applicableRules[i], data);
        MapSeqExtend(applicableRules, i, RunWith(data));
        results := results + [result];
      }
      assert applicableRules[..|applicableRules|] == applicableRules;
      r := Success(results);
    }

    /** `getValidationHistory`: not backed by storage; always empty. */
    method GetValidationHistory(gliderId: string) returns (history: seq<ValidationResult>)
      ensures history == []
    {
      history := [];
    }
  }
}
