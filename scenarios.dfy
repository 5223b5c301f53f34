/** Concrete runs of the gardener model on small boards: staleness, missing
    content and orphans. */
module Scenarios {
  import opened Base
  import opened FieldCatalog
  import opened FieldValues
  import opened Board
  import opened Tracker
  import opened StatusRules
  import opened Priority
  import opened Gardener
  import opened Sweeper

  const Fields: Catalog := Catalog(
    Some(SelectField("status", [("Todo", "s-todo"), ("In Progress", "s-wip"), ("Done", "s-done")])),
    Some(SelectField("prio", [("P0", "p0"), ("P1", "p1"), ("P2", "p2"), ("P3", "p3")])))

  function Issue(state: string, labels: seq<string>): Content
  {
    Content(Some("I_1"), Some(state), None, labels, [], Some(7), Some(Repository("infra", "atnplex")))
  }

  function SelectValue(field: string, name: string): ValueNode
  {
    ValueNode(Some(field), Str(name), Absent, Absent)
  }

  /** A stale open item in Todo is reported and gets no write. */
  lemma StaleIsAdvisoryOnly()
    ensures var item := BoardItem("PVTI_5", Some(Issue("OPEN", [])), Some(0),
                                  [SelectValue("Status", "Todo"), SelectValue("Priority", "P2")]);
      ItemStale(item, 40 * 86400) && ItemCommands(Fields, item, false) == []
  {
  }

  /** A board item without content: no command, nothing seen. */
  lemma MissingContentSkipped()
    ensures var item := BoardItem("PVTI_6", None, Some(0), [SelectValue("Status", "Todo")]);
      ItemCommands(Fields, item, false) == [] && SeenId(item) == None && !ItemStale(item, 0)
  {
  }

  /** Board {A, B}, open {A, B, C}: only C is enrolled; with C seen too, none. */
  lemma SweeperFindsOnlyC()
    ensures Orphans([[OpenItem("A", "a"), OpenItem("B", "b")], [OpenItem("C", "c")]], {"A", "B"}) == ["C"]
    ensures Orphans([[OpenItem("A", "a"), OpenItem("B", "b")], [OpenItem("C", "c")]], {"A", "B", "C"}) == []
  {
    var repos := [[OpenItem("A", "a"), OpenItem("B", "b")], [OpenItem("C", "c")]];
    assert repos[..1] == [[OpenItem("A", "a"), OpenItem("B", "b")]];
    assert [OpenItem("A", "a"), OpenItem("B", "b")][..1] == [OpenItem("A", "a")];
  }

  /** A label of lower-case letters and dashes is its own lower-cased form. */
  lemma LowerLabel(l: string)
    requires forall k :: 0 <= k < |l| ==> 'a' <= l[k] <= 'z' || '0' <= l[k] <= '9' || l[k] == '-'
    ensures Text.Lower(l) == l
  {
    Text.LowerUnchanged(l);
  }

  /** Rule 1 wins over rule 2a: a closed item labelled ai-assigned with an
      empty Status gets exactly one write, Status = Done. */
  lemma ClosedBeatsAiAssigned()
    ensures var item := BoardItem("PVTI_1", Some(Issue("CLOSED", ["ai-assigned"])), Some(0), []);
      ItemCommands(Fields, item, false) == [SetOption("PVTI_1", "status", "s-done")]
  {
    var l := "ai-assigned";
    LowerLabel(l);
    Text.MissingCharRulesOut(l, "critical", 0);
    Text.MissingCharRulesOut(l, "p0", 0);
    Text.MissingCharRulesOut(l, "high", 0);
    Text.MissingCharRulesOut(l, "p1", 0);
    assert !Marked(l);
    var x := Issue("CLOSED", [l]);
    var cv := Decoded([]);
    assert ForcedPriority(x.labels) == None;
    assert PriorityDecision(Fields, x, cv) == None;
    ClosedItemGoesDone(Fields, x, cv);
    assert StatusDecision(Fields, x, cv) == Some(StatusWrite(ClosedSync, "status", "Done", "s-done"));
  }

  /** A "p0-urgent" label forces P0 over an existing P2. */
  lemma ForcedP0ReplacesP2()
    ensures var item := BoardItem("PVTI_2", Some(Issue("OPEN", ["p0-urgent"])), Some(0),
                                  [SelectValue("Status", "Todo"), SelectValue("Priority", "P2")]);
      ItemCommands(Fields, item, false) == [SetOption("PVTI_2", "prio", "p0")]
  {
    var l := "p0-urgent";
    LowerLabel(l);
    Text.PrefixContained(l, "p0");
    var x := Issue("OPEN", [l]);
    var cv := Decoded([SelectValue("Status", "Todo"), SelectValue("Priority", "P2")]);
    assert Lookup(cv, "Status") == Some("Todo") && Lookup(cv, "Priority") == Some("P2");
    assert ForcedPriority(x.labels) == Some("P0");
    Text.PrefixContained("P0", "P0");
    assert FirstOptionContaining(PriorityOptions(Fields), "P0") == Some(("P0", "p0"));
    ForcedOverridesCurrent(Fields, x, cv, "P0", "p0");
    assert StatusDecision(Fields, x, cv) == None;
  }

  /** "enhancement" marks neither P0 nor P1. */
  lemma EnhancementNotForced()
    ensures ForcedPriority(["enhancement"]) == None
  {
    var l := "enhancement";
    LowerLabel(l);
    Text.MissingCharRulesOut(l, "critical", 1);
    Text.MissingCharRulesOut(l, "p0", 0);
    Text.MissingCharRulesOut(l, "high", 1);
    Text.MissingCharRulesOut(l, "p1", 0);
  }

  /** A derived priority never replaces an existing value: "enhancement" with
      Priority already P1 gets no write. */
  lemma DerivedKeepsExisting()
    ensures var item := BoardItem("PVTI_3", Some(Issue("OPEN", ["enhancement"])), Some(0),
                                  [SelectValue("Status", "Todo"), SelectValue("Priority", "P1")]);
      ItemCommands(Fields, item, false) == []
  {
    var x := Issue("OPEN", ["enhancement"]);
    var cv := Decoded([SelectValue("Status", "Todo"), SelectValue("Priority", "P1")]);
    assert Lookup(cv, "Status") == Some("Todo") && Some("Priority") in cv;
    EnhancementNotForced();
    PriorityDecisionSpec(Fields, x, cv);
    assert StatusDecision(Fields, x, cv) == None;
  }

  /** "chore" marks neither P0 nor P1 and contains no key of the map. */
  lemma ChoreDerivesDefault()
    ensures ForcedPriority(["chore"]) == None
    ensures DerivedPriority(["chore"]) == DefaultPriority
  {
    var l := "chore";
    LowerLabel(l);
    Text.MissingCharRulesOut(l, "p0", 0);
    Text.MissingCharRulesOut(l, "p1", 0);
    ChoreMatchesNoKey();
  }

  lemma ChoreMatchesNoKey()
    ensures KeyMatch("chore", LabelPriorityMap) == None
  {
    var l := "chore";
    Text.MissingCharRulesOut(l, "critical", 2);
    Text.MissingCharRulesOut(l, "high", 1);
    Text.MissingCharRulesOut(l, "bug", 0);
    Text.MissingCharRulesOut(l, "enhancement", 1);
    Text.MissingCharRulesOut(l, "feature", 0);
    Text.MissingCharRulesOut(l, "documentation", 0);
  }

  /** The first Priority option containing "P2" is "P2" itself. */
  lemma P2Option()
    ensures FirstOptionContaining(PriorityOptions(Fields), "P2") == Some(("P2", "p2"))
  {
    Text.MissingCharRulesOut("P0", "P2", 1);
    Text.MissingCharRulesOut("P1", "P2", 1);
    Text.PrefixContained("P2", "P2");
  }

  /** A label that matches no key falls back to the default P2. */
  lemma UnmatchedLabelGetsDefault()
    ensures var item := BoardItem("PVTI_4", Some(Issue("OPEN", ["chore"])), Some(0), [SelectValue("Status", "Todo")]);
      ItemCommands(Fields, item, false) == [SetOption("PVTI_4", "prio", "p2")]
  {
    var x := Issue("OPEN", ["chore"]);
    var cv := Decoded([SelectValue("Status", "Todo")]);
    assert Lookup(cv, "Status") == Some("Todo") && Some("Priority") !in cv;
    ChoreDerivesDefault();
    P2Option();
    DerivedFillsGap(Fields, x, cv, "P2", "p2");
    assert StatusDecision(Fields, x, cv) == None;
  }
}
