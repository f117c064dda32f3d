/**
 * The APPI trim rule: an aspect-ratio-dependent tolerance, the A-B and A-C
 * differentials of each line group (each line's deviation being its
 * measured minus its manufacturer length), a pass/fail verdict, one message
 * line per group and a table of suggested correction loops keyed by group
 * name.
 */
module Appi {
  import opened Wrappers
  import opened OrderedMaps
  import opened Text
  import opened ValidationTypes
  import opened Seqs

  /** The APPI tolerance in mm for a wing of the given aspect ratio. */
  function GetAppiDeviationLimit(aspectRatio: real): (limit: int)
    ensures limit == 10 || limit == 15 || limit == 20
    ensures limit == 20 <==> aspectRatio <= 5.0
    ensures limit == 15 <==> 5.0 < aspectRatio <= 6.0
    ensures limit == 10 <==> 6.0 < aspectRatio
  {
    if aspectRatio <= 5.0 then 20
    else if aspectRatio <= 6.0 then 15
    else if aspectRatio <= 6.5 then 10
    else 10
  }

  /** A higher aspect ratio never gets a looser tolerance. */
  lemma LimitNonIncreasing(a: real, b: real)
    requires a <= b
    ensures GetAppiDeviationLimit(b) <= GetAppiDeviationLimit(a)
  {
  }

  /** The tolerances of the three glider presets (aspect ratios 6.44, 6.0 and 7.0). */
  lemma PresetTolerances()
    ensures GetAppiDeviationLimit(6.44) == 10
    ensures GetAppiDeviationLimit(6.0) == 15
    ensures GetAppiDeviationLimit(7.0) == 10
  {
  }

  /** `Math.round(x)`: the nearest integer, a half rounding towards +infinity. */
  function JsRound(x: real): (n: int)
    ensures n as real - 0.5 <= x < n as real + 0.5
  {
    (x + 0.5).Floor
  }

  /** `Math.round(deviation / 10)`: one correction loop is about 10 mm. */
  function SuggestCorrectionLoops(deviation: int): (loops: int)
    ensures -5 <= deviation - 10 * loops < 5
  {
    var x := deviation as real / 10.0;
    var n := JsRound(x);
    assert (deviation - 10 * n) as real == 10.0 * (x - n as real);
    n
  }

  /** For whole millimetres the rounding is `floor((d + 5) / 10)`. */
  lemma LoopsFormula(deviation: int)
    ensures SuggestCorrectionLoops(deviation) == (deviation + 5) / 10
  {
    var n := SuggestCorrectionLoops(deviation);
    var q := (deviation + 5) / 10;
    assert 10 * q <= deviation + 5 < 10 * q + 10;
    assert 10 * n <= deviation + 5 < 10 * n + 10;
  }

  /** No deviation needs no loop; halves round up, so 5 gives 1 and -5 gives 0; nothing clamps negatives. */
  lemma LoopsBoundaries()
    ensures SuggestCorrectionLoops(0) == 0
    ensures SuggestCorrectionLoops(5) == 1
    ensures SuggestCorrectionLoops(-5) == 0
    ensures SuggestCorrectionLoops(-6) == -1
    ensures SuggestCorrectionLoops(15) == 2
  {
    LoopsFormula(0);
    LoopsFormula(5);
    LoopsFormula(-5);
    LoopsFormula(-6);
    LoopsFormula(15);
  }

  /** `Math.abs`. */
  function Abs(x: int): nat {
    if x < 0 then -x else x
  }

  /** A line's deviation from the manufacturer: measured minus reference. */
  function DevA(g: LineGroup): int { g.measured.a - g.manufacturer.a }
  function DevB(g: LineGroup): int { g.measured.b - g.manufacturer.b }
  function DevC(g: LineGroup): int { g.measured.c - g.manufacturer.c }

  /** The A-B and A-C differentials of a group. */
  function DiffAB(g: LineGroup): int { DevA(g) - DevB(g) }
  function DiffAC(g: LineGroup): int { DevA(g) - DevC(g) }

  /** A group is out of tolerance when either differential exceeds the limit; equal to it is fine. */
  predicate Violates(g: LineGroup, limit: int)
  {
    Exceeds(DiffAB(g), DiffAC(g), limit)
  }

  /**
   * In terms of the measured and manufacturer lengths: a group violates exactly
   * when one of its differentials lies outside the closed band from -limit to
   * +limit.
   */
  lemma ViolatesIff(g: LineGroup, limit: int)
    ensures Violates(g, limit) <==>
      var devA := g.measured.a - g.manufacturer.a;
      !(-limit <= devA - (g.measured.b - g.manufacturer.b) <= limit &&
        -limit <= devA - (g.measured.c - g.manufacturer.c) <= limit)
  {
  }

  /** `Math.abs(diffAB) > limit || Math.abs(diffAC) > limit`. */
  predicate Exceeds(diffAB: int, diffAC: int, limit: int)
  {
    Abs(diffAB) > limit || Abs(diffAC) > limit
  }

  /**
   * In terms of the measured and manufacturer lengths: AB and AC are the A-B
   * and A-C differentials of the deviations, A needs no loops, and B and C
   * get the loops that bring them closest to A.
   */
  lemma CorrectionForFields(g: LineGroup)
    ensures var c := CorrectionFor(g);
      && c.ab == (g.measured.a - g.manufacturer.a) - (g.measured.b - g.manufacturer.b)
      && c.ac == (g.measured.a - g.manufacturer.a) - (g.measured.c - g.manufacturer.c)
      && c.loopsA == 0
      && -5 <= c.ab - 10 * c.loopsB < 5 && -5 <= c.ac - 10 * c.loopsC < 5
  {
  }

  /** The correction record of a group: A is the reference, B and C are brought to it. */
  function CorrectionFor(g: LineGroup): Correction {
    Correction(DiffAB(g), DiffAC(g), 0, SuggestCorrectionLoops(DiffAB(g)), SuggestCorrectionLoops(DiffAC(g)))
  }

  /** The figures shown at the end of a group's message line. */
  function Figures(diffAB: int, diffAC: int, limit: int): (figures: string)
    ensures '\n' !in figures
  {
    var x, y, z := IntToString(diffAB), IntToString(diffAC), IntToString(limit);
    var p, q, t, u := " (A-B: ", "mm, A-C: ", "mm, limit: \U{00B1}", "mm)";
    assert '\n' !in p && '\n' !in q && '\n' !in t && '\n' !in u;
    p + x + q + y + t + z + u
  }

  /** The message line of a group with the given name and differentials. */
  function MessageLine(name: string, diffAB: int, diffAC: int, limit: int): (line: string)
    ensures '\n' !in name ==> '\n' !in line
  {
    var words := if Exceeds(diffAB, diffAC, limit) then OutOfTolerance else WithinTolerance;
    var figures := Figures(diffAB, diffAC, limit);
    VerdictsHaveNoNewline();
    assert '\n' !in name ==> '\n' !in name + words + figures by {
      if '\n' !in name {
        NoNewlineIn(name, words, figures);
      }
    }
    name + words + figures
  }

  /** The message line of one group. */
  function GroupLine(g: LineGroup, limit: int): string {
    MessageLine(g.name, DiffAB(g), DiffAC(g), limit)
  }

  /** The message lines of the groups: one per group, in input order. */
  function GroupLines(gs: seq<LineGroup>, limit: int): (lines: seq<string>)
    ensures |lines| == |gs|
  {
    MapSeq(gs, LineWithLimit(limit))
  }

  function LineWithLimit(limit: int): LineGroup -> string {
    g => GroupLine(g, limit)
  }

  /** The corrections record after processing the groups in order. */
  function CorrectionTable(gs: seq<LineGroup>): OrderedMap<string, Correction>
    decreases |gs|
  {
    if |gs| == 0 then Empty()
    else
      var last := gs[|gs| - 1];
      CorrectionTable(gs[..|gs| - 1]).Set(last.name, CorrectionFor(last))
  }

  lemma GroupLinesExtend(gs: seq<LineGroup>, i: nat, limit: int)
    requires i < |gs|
    ensures GroupLines(gs[..i + 1], limit) == GroupLines(gs[..i], limit) + [GroupLine(gs[i], limit)]
  {
    MapSeqExtend(gs, i, LineWithLimit(limit));
  }

  lemma CorrectionTableExtend(gs: seq<LineGroup>, i: nat)
    requires i < |gs|
    ensures CorrectionTable(gs[..i + 1]) == CorrectionTable(gs[..i]).Set(gs[i].name, CorrectionFor(gs[i]))
  {
    assert gs[..i + 1][..i] == gs[..i];
  }

  predicate AnyViolates(gs: seq<LineGroup>, limit: int) {
    exists i :: 0 <= i < |gs| && Violates(gs[i], limit)
  }

  lemma AnyViolatesExtend(gs: seq<LineGroup>, i: nat, limit: int)
    requires i < |gs|
    ensures AnyViolates(gs[..i + 1], limit) == (AnyViolates(gs[..i], limit) || Violates(gs[i], limit))
  {
    if Violates(gs[i], limit) {
      assert gs[..i + 1][i] == gs[i];
    }
    if AnyViolates(gs[..i], limit) {
      var j :| 0 <= j < i && Violates(gs[..i][j], limit);
      assert gs[..i + 1][j] == gs[..i][j];
    }
    if AnyViolates(gs[..i + 1], limit) {
      var j :| 0 <= j < i + 1 && Violates(gs[..i + 1][j], limit);
      if j < i {
        assert gs[..i][j] == gs[..i + 1][j];
      }
    }
  }

  /** What the rule returns for a trim input (the timestamp aside). */
  function TrimResult(input: TrimInput): ValidationResult {
    var limit := GetAppiDeviationLimit(input.aspectRatio);
    ValidationResult(
      if AnyViolates(input.groups, limit) then Fail else Pass,
      Join(GroupLines(input.groups, limit), '\n'),
      Some(TrimCorrections(CorrectionTable(input.groups))))
  }

  /**
   * The rule's result: `fail` exactly when some group violates the limit and
   * `pass` otherwise; the details hold a well-formed corrections record with
   * one key per group name; no groups give an empty message.
   */
  lemma TrimResultMeaning(input: TrimInput)
    ensures var r := TrimResult(input);
      && (r.status == Fail <==>
          exists i :: 0 <= i < |input.groups| && Violates(input.groups[i], GetAppiDeviationLimit(input.aspectRatio)))
      && (r.status == Pass || r.status == Fail)
      && r.details.Some? && r.details.value.TrimCorrections?
      && r.details.value.corrections.Valid()
      && r.details.value.corrections.entries.Keys == Names(input.groups)
      && (input.groups == [] ==> r.message == "")
  {
    CorrectionTableValid(input.groups);
    CorrectionTableKeys(input.groups);
  }


  /** The verdict word of a group's line is "out of tolerance" exactly when the group violates the limit, "OK" otherwise. */
  lemma GroupLineVerdict(g: LineGroup, limit: int)
    ensures g.name + OutOfTolerance <= GroupLine(g, limit) <==> Violates(g, limit)
    ensures g.name + WithinTolerance <= GroupLine(g, limit) <==> !Violates(g, limit)
  {
    var figures := Figures(DiffAB(g), DiffAC(g), limit);
    assert OutOfTolerance[15] == 'o' && WithinTolerance[15] == 'O';
    if Violates(g, limit) {
      DistinctPrefixes(g.name, OutOfTolerance, WithinTolerance, figures, 15);
    } else {
      DistinctPrefixes(g.name, WithinTolerance, OutOfTolerance, figures, 15);
    }
  }

  /** Two words that differ at one position cannot both start the same line after the same name. */
  lemma DistinctPrefixes(name: string, word: string, other: string, rest: string, k: nat)
    requires k < |word| && k < |other| && word[k] != other[k]
    ensures name + word <= name + word + rest
    ensures !(name + other <= name + word + rest)
  {
    assert (name + word + rest)[|name| + k] == word[k];
    assert (name + other)[|name| + k] == other[k];
  }

  lemma GroupLineHasNoNewline(g: LineGroup, limit: int)
    requires '\n' !in g.name
    ensures '\n' !in GroupLine(g, limit)
  {
  }

  const OutOfTolerance := ": Differential out of tolerance"
  const WithinTolerance := ": Differential OK"

  lemma VerdictsHaveNoNewline()
    ensures '\n' !in OutOfTolerance && '\n' !in WithinTolerance
  {
  }

  lemma NoNewlineIn(a: string, b: string, c: string)
    requires '\n' !in a && '\n' !in b && '\n' !in c
    ensures '\n' !in a + b + c
  {
  }

  /**
   * The message has one line per group, in input order, each the group's own
   * line, as long as no group name contains a line break.
   */
  lemma TrimMessageLines(input: TrimInput)
    requires |input.groups| >= 1
    requires forall i :: 0 <= i < |input.groups| ==> '\n' !in input.groups[i].name
    ensures |Split(TrimResult(input).message, '\n')| == |input.groups|
    ensures forall i :: 0 <= i < |input.groups| ==>
      Split(TrimResult(input).message, '\n')[i] == GroupLine(input.groups[i], GetAppiDeviationLimit(input.aspectRatio))
  {
    var limit := GetAppiDeviationLimit(input.aspectRatio);
    var lines := GroupLines(input.groups, limit);
    forall i | 0 <= i < |lines|
      ensures '\n' !in lines[i]
    {
      GroupLineHasNoNewline(input.groups[i], limit);
    }
    SplitJoin(lines, '\n');
  }

  /** The correction table lists each key once. */
  lemma {:induction false} CorrectionTableValid(gs: seq<LineGroup>)
    ensures CorrectionTable(gs).Valid()
    decreases |gs|
  {
    if |gs| > 0 {
      var init := gs[..|gs| - 1];
      CorrectionTableValid(init);
      SetValid(CorrectionTable(init), gs[|gs| - 1].name, CorrectionFor(gs[|gs| - 1]));
    }
  }

  /** No later group has the same name as group i. */
  ghost predicate LastOfName(gs: seq<LineGroup>, i: nat) {
    forall j :: i < j < |gs| ==> gs[j].name != gs[i].name
  }

  /** The names of the groups. */
  ghost function Names(gs: seq<LineGroup>): set<string> {
    set i | 0 <= i < |gs| :: gs[i].name
  }

  /** The table has an entry for exactly the group names. */
  lemma {:induction false} CorrectionTableKeys(gs: seq<LineGroup>)
    ensures CorrectionTable(gs).entries.Keys == Names(gs)
    decreases |gs|
  {
    if |gs| > 0 {
      var n := |gs| - 1;
      var init := gs[..n];
      CorrectionTableKeys(init);
      assert Names(gs) == Names(init) + {gs[n].name} by {
        forall k | k in Names(gs) ensures k in Names(init) + {gs[n].name} {
          var i :| 0 <= i < |gs| && gs[i].name == k;
          if i < n { assert init[i] == gs[i]; }
        }
        forall k | k in Names(init) ensures k in Names(gs) {
          var i :| 0 <= i < |init| && init[i].name == k;
          assert gs[i] == init[i];
        }
      }
    }
  }

  /** The entry of a name is the correction of the last group with that name. */
  lemma {:induction false} CorrectionTableLastWins(gs: seq<LineGroup>)
    ensures forall i :: 0 <= i < |gs| && LastOfName(gs, i) ==>
      gs[i].name in CorrectionTable(gs).entries && CorrectionTable(gs).entries[gs[i].name] == CorrectionFor(gs[i])
    decreases |gs|
  {
    if |gs| > 0 {
      var n := |gs| - 1;
      var init := gs[..n];
      CorrectionTableLastWins(init);
      forall i | 0 <= i < n && LastOfName(gs, i)
        ensures LastOfName(init, i) && init[i] == gs[i]
      {
      }
    }
  }

  /** Every entry of the table suggests no loop for A and rounds its differentials for B and C. */
  lemma {:induction false} CorrectionTableLoops(gs: seq<LineGroup>)
    ensures forall k :: k in CorrectionTable(gs).entries ==>
      var c := CorrectionTable(gs).entries[k];
      c.loopsA == 0 && c.loopsB == SuggestCorrectionLoops(c.ab) && c.loopsC == SuggestCorrectionLoops(c.ac)
    decreases |gs|
  {
    if |gs| > 0 {
      CorrectionTableLoops(gs[..|gs| - 1]);
    }
  }

  /** The position of the first group with the given name (|gs| when there is none). */
  function FirstIndex(gs: seq<LineGroup>, name: string): (i: nat)
    ensures i <= |gs|
    ensures i < |gs| ==> gs[i].name == name
    ensures forall j :: 0 <= j < i ==> gs[j].name != name
    decreases |gs|
  {
    if |gs| == 0 then 0
    else if gs[0].name == name then 0
    else 1 + FirstIndex(gs[1..], name)
  }

  lemma {:induction false} FirstIndexExtend(gs: seq<LineGroup>, g: LineGroup, name: string)
    ensures FirstIndex(gs, name) < |gs| ==> FirstIndex(gs + [g], name) == FirstIndex(gs, name)
    ensures FirstIndex(gs, name) == |gs| && g.name == name ==> FirstIndex(gs + [g], name) == |gs|
    decreases |gs|
  {
    if |gs| > 0 && gs[0].name != name {
      assert (gs + [g])[1..] == gs[1..] + [g];
      FirstIndexExtend(gs[1..], g, name);
    }
  }

  /** The table's keys come in the order in which their names first occur among the groups. */
  lemma {:induction false} CorrectionKeysInFirstOccurrenceOrder(gs: seq<LineGroup>)
    ensures forall p, q :: 0 <= p < q < |CorrectionTable(gs).keys| ==>
      FirstIndex(gs, CorrectionTable(gs).keys[p]) < FirstIndex(gs, CorrectionTable(gs).keys[q]) < |gs|
    decreases |gs|
  {
    if |gs| > 0 {
      var n := |gs| - 1;
      var init := gs[..n];
      CorrectionKeysInFirstOccurrenceOrder(init);
      var before, t := CorrectionTable(init), CorrectionTable(gs);
      assert init + [gs[n]] == gs;
      KeptKeysKeepFirstIndex(init, gs[n]);
      forall p, q | 0 <= p < q < |t.keys|
        ensures FirstIndex(gs, t.keys[p]) < FirstIndex(gs, t.keys[q]) < |gs|
      {
        assert t.keys[p] == before.keys[p];
        if q < |before.keys| {
          assert t.keys[q] == before.keys[q];
        }
      }
    }
  }

  /**
   * Appending the last group does not move the first occurrence of a name
   * already in the table; a new name is first seen at the last position.
   */
  lemma KeptKeysKeepFirstIndex(init: seq<LineGroup>, g: LineGroup)
    ensures forall p :: 0 <= p < |CorrectionTable(init).keys| ==>
      FirstIndex(init + [g], CorrectionTable(init).keys[p]) == FirstIndex(init, CorrectionTable(init).keys[p]) < |init|
    ensures g.name !in CorrectionTable(init).entries ==> FirstIndex(init + [g], g.name) == |init|
  {
    var gs := init + [g];
    var n := |init|;
    assert gs[..n] == init;

    var before := CorrectionTable(init);
    CorrectionTableValid(init);
    CorrectionTableKeys(init);
    forall p | 0 <= p < |before.keys|
      ensures FirstIndex(gs, before.keys[p]) == FirstIndex(init, before.keys[p]) < n
    {
      var k := before.keys[p];
      assert k in Names(init);
      var i :| 0 <= i < |init| && init[i].name == k;
      FirstIndexExtend(init, g, k);
    }
    if g.name !in before.entries {
      assert g.name !in Names(init);
      assert forall i :: 0 <= i < |init| ==> init[i].name != g.name;
      FirstIndexExtend(init, g, g.name);
    }
  }

  /** Families other than A, B and C never change the rule's result. */
  lemma {:induction false} OtherFamiliesIgnored(input: TrimInput, other: TrimInput)
    requires input.aspectRatio == other.aspectRatio
    requires |input.groups| == |other.groups|
    requires forall i :: 0 <= i < |input.groups| ==> SameABC(input.groups[i], other.groups[i])
    ensures TrimResult(input) == TrimResult(other)
  {
    var limit := GetAppiDeviationLimit(input.aspectRatio);
    LinesAgree(input.groups, other.groups, limit);
    ViolationsAgree(input.groups, other.groups, limit);
    CorrectionTablesAgree(input.groups, other.groups);
  }

  lemma LinesAgree(gs: seq<LineGroup>, hs: seq<LineGroup>, limit: int)
    requires |gs| == |hs|
    requires forall i :: 0 <= i < |gs| ==> SameABC(gs[i], hs[i])
    ensures GroupLines(gs, limit) == GroupLines(hs, limit)
  {
    var f := LineWithLimit(limit);
    forall i | 0 <= i < |gs|
      ensures f(gs[i]) == f(hs[i])
    {
      SameLine(gs[i], hs[i], limit);
    }
    MapSeqAgree(gs, hs, f);
  }

  lemma ViolationsAgree(gs: seq<LineGroup>, hs: seq<LineGroup>, limit: int)
    requires |gs| == |hs|
    requires forall i :: 0 <= i < |gs| ==> SameABC(gs[i], hs[i])
    ensures AnyViolates(gs, limit) == AnyViolates(hs, limit)
  {
    if AnyViolates(gs, limit) {
      var i :| 0 <= i < |gs| && Violates(gs[i], limit);
      assert Violates(hs[i], limit);
    }
    if AnyViolates(hs, limit) {
      var i :| 0 <= i < |hs| && Violates(hs[i], limit);
      assert Violates(gs[i], limit);
    }
  }

  lemma SameLine(g: LineGroup, h: LineGroup, limit: int)
    requires SameABC(g, h)
    ensures GroupLine(g, limit) == GroupLine(h, limit)
  {
    assert DiffAB(g) == DiffAB(h) && DiffAC(g) == DiffAC(h);
  }

  /** Two groups that agree on the name and on the A, B and C lengths. */
  predicate SameABC(g: LineGroup, h: LineGroup) {
    && g.name == h.name
    && g.measured.a == h.measured.a && g.measured.b == h.measured.b && g.measured.c == h.measured.c
    && g.manufacturer.a == h.manufacturer.a && g.manufacturer.b == h.manufacturer.b
    && g.manufacturer.c == h.manufacturer.c
  }

  lemma {:induction false} CorrectionTablesAgree(gs: seq<LineGroup>, hs: seq<LineGroup>)
    requires |gs| == |hs|
    requires forall i :: 0 <= i < |gs| ==> SameABC(gs[i], hs[i])
    ensures CorrectionTable(gs) == CorrectionTable(hs)
    decreases |gs|
  {
    if |gs| > 0 {
      CorrectionTablesAgree(gs[..|gs| - 1], hs[..|hs| - 1]);
      assert CorrectionFor(gs[|gs| - 1]) == CorrectionFor(hs[|hs| - 1]);
    }
  }

  /**
   * The first group of the Gin Bonanza 2 XS preset (aspect ratio 6.44) with
   * its A line 15 mm long: A-B and A-C are 15 mm against a 10 mm limit, so
   * the rule fails and suggests 2 loops on B and on C.
   */
  lemma BonanzaLongALineFails()
    ensures var g := LineGroup("G1", LineLengths(7310, 7265, 7265, map[]), LineLengths(7295, 7265, 7265, map[]));
      var r := TrimResult(TrimInput(6.44, [g]));
      && r.status == Fail
      && r.details == Some(TrimCorrections(OrderedMap(["G1"], map["G1" := Correction(15, 15, 0, 2, 2)])))
  {
    var g := LineGroup("G1", LineLengths(7310, 7265, 7265, map[]), LineLengths(7295, 7265, 7265, map[]));
    var gs := [g];
    assert Violates(g, 10);
    assert gs[0] == g && gs[..0] == [];
    LoopsFormula(15);
    assert CorrectionFor(g) == Correction(15, 15, 0, 2, 2);
    assert CorrectionTable(gs) == OrderedMap(["G1"], map["G1" := Correction(15, 15, 0, 2, 2)]);
    assert AnyViolates(gs, 10);
  }

  /** The body of `validate`'s loop for one group: its correction record, its message line and its verdict. */
  method CheckGroup(group: LineGroup, limit: int) returns (correction: Correction, line: string, violates: bool)
    ensures correction == CorrectionFor(group)
    ensures line == GroupLine(group, limit)
    ensures violates == Violates(group, limit)
  {
    var devA := group.measured.a - group.manufacturer.a;
    var devB := group.measured.b - group.manufacturer.b;
    var devC := group.measured.c - group.manufacturer.c;
    var diffAB := devA - devB;
    var diffAC := devA - devC;
    var loopsA := 0;
    var loopsB := SuggestCorrectionLoops(diffAB);
    var loopsC := SuggestCorrectionLoops(diffAC);
    correction := Correction(diffAB, diffAC, loopsA, loopsB, loopsC);
    var figures := Figures(diffAB, diffAC, limit);
    if Abs(diffAB) > limit || Abs(diffAC) > limit {
      violates := true;
      line := group.name + ": Differential out of tolerance" + figures;
    } else {
      violates := false;
      line := group.name + ": Differential OK" + figures;
    }
  }

  /** The loop of `validate` over the groups of a trim input. */
  method ValidateTrim(input: TrimInput) returns (r: ValidationResult)
    ensures r == TrimResult(input)
    ensures r.status == Fail <==>
      exists i :: 0 <= i < |input.groups| && Violates(input.groups[i], GetAppiDeviationLimit(input.aspectRatio))
    ensures r.status == Pass || r.status == Fail
    ensures input.groups == [] ==> r == ValidationResult(Pass, "", Some(TrimCorrections(Empty())))
  {
    var groups := input.groups;
    var limit := GetAppiDeviationLimit(input.aspectRatio);
    var hasError := false;
    var results: seq<string> := [];
    var corrections: OrderedMap<string, Correction> := Empty();
    for i := 0 to |groups|
      invariant hasError == AnyViolates(groups[..i], limit)
      invariant results == GroupLines(groups[..i], limit)
      invariant corrections == CorrectionTable(groups[..i])
    {
      var group := groups[i];
      var correction, line, violates := CheckGroup(group, limit);
      CorrectionTableExtend(groups, i);
      GroupLinesExtend(groups, i, limit);
      AnyViolatesExtend(groups, i, limit);
      corrections := corrections.Set(group.name, correction);
      if violates {
        hasError := true;
      }
      results := results + [line];
    }
    assert groups[..|groups|] == groups;
    r := ValidationResult(if hasError then Fail else Pass, Join(results, '\n'), Some(TrimCorrections(corrections)));
    TrimResultMeaning(input);
  }

  /**
   * Stands in for the engine's text of the `TypeError` that
   * `for (const group of groups)` throws when the data has no `groups`.
   */
  const NotIterable := "undefined is not iterable (cannot read property Symbol(Symbol.iterator))"

  /** `appiTrimRule.validate` on either kind of data. */
  function TrimOutcome(data: Payload): (o: Outcome)
    ensures data.GliderData? ==> o == Threw(ErrorObject(NotIterable))
    ensures data.TrimData? ==> o.Returned? && o.result.status != Pending && o.result.status != Status.Warning
  {
    match data
    case TrimData(input) => Returned(TrimResult(input))
    case GliderData(_) => Threw(ErrorObject(NotIterable))
  }

  method Validate(data: Payload) returns (o: Outcome)
    ensures o == TrimOutcome(data)
    ensures data.GliderData? ==> o.Threw?
    ensures data.TrimData? ==> o.Returned? && (o.result.status == Pass || o.result.status == Fail)
  {
    match data {
      case TrimData(input) =>
        var r := ValidateTrim(input);
        o := Returned(r);
      case GliderData(_) =>
        o := Threw(ErrorObject(NotIterable));
    }
  }

  const AppiTrimRule := Rule(
    "APPI_TRIM",
    "APPI Trim Check",
    "Validates trim using APPI methodology (aspect-ratio-based, group differentials, correction loops)",
    Safety,
    Critical,
    Some("APPI-TRIM-001"),
    Some(false),
    Some(true),
    AppiTrimCheck)

  /** The rules the service registers at construction. */
  const AppiRules: seq<Rule> := [AppiTrimRule]

  /** The APPI trim rule: a critical safety rule that needs a technician and is not manufacturer specific. */
  lemma AppiTrimRuleFields()
    ensures AppiTrimRule.id == "APPI_TRIM" && AppiTrimRule.behaviour == AppiTrimCheck
    ensures AppiTrimRule.category == Safety && AppiTrimRule.severity == Critical
    ensures AppiTrimRule.appiReference == Some("APPI-TRIM-001")
    ensures AppiTrimRule.manufacturerSpecific == Some(false) && AppiTrimRule.requiresTechnicianInput == Some(true)
  {
  }

  /** The list of APPI rules holds the trim rule alone. */
  lemma AppiRulesList()
    ensures |AppiRules| == 1 && AppiRules[0] == AppiTrimRule
  {
  }
}
