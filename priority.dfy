/** The Priority engine (scripts/project_gardener.py:13-22, 292-338): a forced
    P0/P1 from labels, otherwise a derived value that only fills an empty field. */
module Priority {
  import opened Base
  import opened Text
  import opened Dicts
  import opened FieldCatalog
  import opened FieldValues
  import opened Board
  import opened Tracker

  /** `LABEL_PRIORITY_MAP`, in its iteration order. */
  const LabelPriorityMap: seq<(string, string)> :=
    [("critical", "P0"), ("high", "P1"), ("bug", "P1"),
     ("enhancement", "P2"), ("feature", "P2"), ("documentation", "P3")]

  const DefaultPriority := "P2"

  /** The label, lower-cased, marks P0. */
  predicate MarksP0(name: string)
  {
    Contains(Lower(name), "critical") || Contains(Lower(name), "p0")
  }

  /** The label, lower-cased, marks P1. */
  predicate MarksP1(name: string)
  {
    Contains(Lower(name), "high") || Contains(Lower(name), "p1")
  }

  /** The forced target: decided by the first label that marks P0 or P1. */
  function ForcedPriority(labels: seq<string>): Option<string>
  {
    if labels == [] then None
    else if MarksP0(labels[0]) then Some("P0")
    else if MarksP1(labels[0]) then Some("P1")
    else ForcedPriority(labels[1..])
  }

  /** Lines 298-308: the label scan with `break`. */
  method ScanForcedPriority(labels: seq<string>) returns (target: Option<string>, force: bool)
    ensures target == ForcedPriority(labels)
    ensures force <==> target.Some?
  {
    target, force := None, false;
    var i := 0;
    while i < |labels|
      invariant 0 <= i <= |labels|
      invariant target == None && !force
      invariant ForcedPriority(labels) == ForcedPriority(labels[i..])
    {
      var nLabel := Lower(labels[i]);
      if Contains(nLabel, "critical") || Contains(nLabel, "p0") {
        target, force := Some("P0"), true;
        break;
      }
      if Contains(nLabel, "high") || Contains(nLabel, "p1") {
        target, force := Some("P1"), true;
        break;
      }
      assert labels[i..][1..] == labels[i + 1..];
      i := i + 1;
    }
  }

  /** The first key of the map, in map order, contained in the label. */
  function KeyMatch(normalized: string, m: seq<(string, string)>): Option<string>
  {
    if m == [] then None
    else if Contains(normalized, m[0].0) then Some(m[0].1)
    else KeyMatch(normalized, m[1..])
  }

  /** The first label, in label order, that matches some key. */
  function LabelMatch(labels: seq<string>, m: seq<(string, string)>): Option<string>
  {
    if labels == [] then None
    else if KeyMatch(Lower(labels[0]), m).Some? then KeyMatch(Lower(labels[0]), m)
    else LabelMatch(labels[1..], m)
  }

  /** The derived target, with `DEFAULT_PRIORITY` as the fallback. */
  function DerivedPriority(labels: seq<string>): string
  {
    var p := LabelMatch(labels, LabelPriorityMap);
    if p.Some? then p.value else DefaultPriority
  }

  /** Lines 312-319: nested label/map loops, each with `break`. */
  method DerivePriority(labels: seq<string>) returns (target: string)
    ensures target == DerivedPriority(labels)
  {
    var found: Option<string> := None;
    var i := 0;
    while i < |labels|
      invariant 0 <= i <= |labels|
      invariant found == None
      invariant LabelMatch(labels, LabelPriorityMap) == LabelMatch(labels[i..], LabelPriorityMap)
    {
      var normalized := Lower(labels[i]);
      var j := 0;
      while j < |LabelPriorityMap|
        invariant 0 <= j <= |LabelPriorityMap|
        invariant found == None
        invariant KeyMatch(normalized, LabelPriorityMap) == KeyMatch(normalized, LabelPriorityMap[j..])
      {
        if Contains(normalized, LabelPriorityMap[j].0) {
          found := Some(LabelPriorityMap[j].1);
          break;
        }
        assert LabelPriorityMap[j..][1..] == LabelPriorityMap[j + 1..];
        j := j + 1;
      }
      if found.Some? {
        break;
      }
      assert labels[i..][1..] == labels[i + 1..];
      i := i + 1;
    }
    target := if found.Some? then found.value else DefaultPriority;
  }

  /** The first option, in dict order, whose name contains the target. */
  function FirstOptionContaining(options: Dict<string, string>, target: string): Option<(string, string)>
  {
    if options == [] then None
    else if Contains(options[0].0, target) then Some(options[0])
    else FirstOptionContaining(options[1..], target)
  }

  /** Lines 324-329: the option scan with `break`. */
  method FindOption(options: Dict<string, string>, target: string) returns (found: Option<(string, string)>)
    ensures found == FirstOptionContaining(options, target)
  {
    found := None;
    var i := 0;
    while i < |options|
      invariant 0 <= i <= |options|
      invariant found == None
      invariant FirstOptionContaining(options, target) == FirstOptionContaining(options[i..], target)
    {
      var (name, optId) := options[i];
      if Contains(name, target) {
        found := Some((name, optId));
        break;
      }
      assert options[i..][1..] == options[i + 1..];
      i := i + 1;
    }
  }

  /** The target, and whether it is forced. Derivation happens only without a
      forced target, with no "Priority" key at all, and in state OPEN. */
  function PriorityTarget(x: Content, cv: Values): Option<(string, bool)>
  {
    var forced := ForcedPriority(x.labels);
    if forced.Some? then Some((forced.value, true))
    else if Some("Priority") !in cv && IsOpen(x) then Some((DerivedPriority(x.labels), false))
    else None
  }

  datatype PriorityWrite = PriorityWrite(target: string, forced: bool, fieldId: string, optionName: string, optionId: string)

  /** The Priority write, if any: the first option containing the target, when
      its id is truthy, and then only if (forced and current differs from the
      target) or (not forced and current is empty). */
  function PriorityDecision(c: Catalog, x: Content, cv: Values): Option<PriorityWrite>
  {
    match PriorityTarget(x, cv)
    case None => None
    case Some((target, forced)) =>
      match FirstOptionContaining(PriorityOptions(c), target)
      case None => None
      case Some((name, optId)) =>
        var current := Lookup(cv, "Priority");
        if optId != "" && c.priority.Some? && ((forced && current != Some(target)) || (!Truthy(current) && !forced))
        then Some(PriorityWrite(target, forced, c.priority.value.id, name, optId))
        else None
  }

  function PriorityCommands(dryRun: bool, itemId: string, w: Option<PriorityWrite>): seq<Mutation>
  {
    if w.Some? then UpdateItemField(dryRun, itemId, w.value.fieldId, w.value.optionId, true) else []
  }

  /** Lines 294-338 as written, threading `target_priority` and `force_update`. */
  method RunPriorityRules(c: Catalog, itemId: string, x: Content, cv: Values, dryRun: bool)
    returns (cmds: seq<Mutation>)
    ensures cmds == PriorityCommands(dryRun, itemId, PriorityDecision(c, x, cv))
  {
    cmds := [];
    var targetPriority, forceUpdate := ScanForcedPriority(x.labels);
    if targetPriority.None? && Some("Priority") !in cv && x.state == Some("OPEN") {
      var derived := DerivePriority(x.labels);
      targetPriority := Some(derived);
    }
    if targetPriority.Some? {
      var targetOption := FindOption(PriorityOptions(c), targetPriority.value);
      if targetOption.Some? && targetOption.value.1 != "" {
        OptionsImplyField(c, targetPriority.value);
        var currentValue := Lookup(cv, "Priority");
        if (forceUpdate && currentValue != targetPriority) || (!Truthy(currentValue) && !forceUpdate) {
          cmds := cmds + UpdateItemField(dryRun, itemId, c.priority.value.id, targetOption.value.1, true);
        }
      }
    }
  }

  lemma OptionsImplyField(c: Catalog, target: string)
    ensures FirstOptionContaining(PriorityOptions(c), target).Some? ==> c.priority.Some?
  {
  }

  /** The label marks P0 or P1. */
  predicate Marked(name: string)
  {
    MarksP0(name) || MarksP1(name)
  }

  /** Label `i` is the first label that marks P0 or P1. */
  predicate FirstMarkedAt(labels: seq<string>, i: int)
  {
    0 <= i < |labels| && Marked(labels[i]) && forall j :: 0 <= j < i ==> !Marked(labels[j])
  }

  /** The forced scan stops at the first label that marks P0 or P1: the result
      is None exactly when no label marks either, and otherwise it is the mark
      of the first label that does (P0 winning within that label). */
  lemma {:induction false} ForcedPriorityFirstMatch(labels: seq<string>)
    ensures ForcedPriority(labels).None? <==> forall i :: 0 <= i < |labels| ==> !Marked(labels[i])
    ensures ForcedPriority(labels).Some? ==>
      exists i :: FirstMarkedAt(labels, i) && ForcedPriority(labels) == Some(if MarksP0(labels[i]) then "P0" else "P1")
  {
    if labels != [] {
      var rest := labels[1..];
      ForcedPriorityFirstMatch(rest);
      assert forall i :: 1 <= i < |labels| ==> labels[i] == rest[i - 1];
      if Marked(labels[0]) {
        assert FirstMarkedAt(labels, 0);
      } else if ForcedPriority(labels).Some? {
        var i :| FirstMarkedAt(rest, i) && ForcedPriority(rest) == Some(if MarksP0(rest[i]) then "P0" else "P1");
        assert FirstMarkedAt(labels, i + 1);
      }
    }
  }

  /** The derived lookup: the result is the priority of the first key, in map
      order, contained in the first label, in label order, that contains any key. */
  lemma {:induction false} KeyMatchFirst(normalized: string, m: seq<(string, string)>)
    ensures KeyMatch(normalized, m).None? <==> forall k :: 0 <= k < |m| ==> !Contains(normalized, m[k].0)
    ensures KeyMatch(normalized, m).Some? ==>
      exists k ::
        && 0 <= k < |m| && Contains(normalized, m[k].0)
        && KeyMatch(normalized, m) == Some(m[k].1)
        && forall j :: 0 <= j < k ==> !Contains(normalized, m[j].0)
  {
    if m != [] {
      KeyMatchFirst(normalized, m[1..]);
      assert forall k :: 1 <= k < |m| ==> m[k] == m[1..][k - 1];
      if !Contains(normalized, m[0].0) && KeyMatch(normalized, m).Some? {
        var k :| 0 <= k < |m[1..]| && Contains(normalized, m[1..][k].0)
          && KeyMatch(normalized, m[1..]) == Some(m[1..][k].1)
          && forall j :: 0 <= j < k ==> !Contains(normalized, m[1..][j].0);
        assert m[k + 1] == m[1..][k];
      }
    }
  }

  lemma {:induction false} LabelMatchFirst(labels: seq<string>, m: seq<(string, string)>)
    ensures LabelMatch(labels, m).None? <==> forall i :: 0 <= i < |labels| ==> KeyMatch(Lower(labels[i]), m).None?
    ensures LabelMatch(labels, m).Some? ==>
      exists i ::
        && 0 <= i < |labels|
        && LabelMatch(labels, m) == KeyMatch(Lower(labels[i]), m)
        && forall j :: 0 <= j < i ==> KeyMatch(Lower(labels[j]), m).None?
  {
    if labels != [] {
      LabelMatchFirst(labels[1..], m);
      assert forall i :: 1 <= i < |labels| ==> labels[i] == labels[1..][i - 1];
      if KeyMatch(Lower(labels[0]), m).None? && LabelMatch(labels, m).Some? {
        var i :| 0 <= i < |labels[1..]|
          && LabelMatch(labels[1..], m) == KeyMatch(Lower(labels[1..][i]), m)
          && forall j :: 0 <= j < i ==> KeyMatch(Lower(labels[1..][j]), m).None?;
        assert labels[i + 1] == labels[1..][i];
      }
    }
  }

  /** Without a forced target no label contains "critical", so the derived
      value is never P0 (the map's first entry is unreachable). */
  lemma {:induction false} DerivedNeverP0(labels: seq<string>)
    requires ForcedPriority(labels).None?
    ensures DerivedPriority(labels) in {"P1", "P2", "P3"}
  {
    ForcedPriorityFirstMatch(labels);
    LabelMatchFirst(labels, LabelPriorityMap);
    if LabelMatch(labels, LabelPriorityMap).Some? {
      var i :| 0 <= i < |labels|
        && LabelMatch(labels, LabelPriorityMap) == KeyMatch(Lower(labels[i]), LabelPriorityMap)
        && forall j :: 0 <= j < i ==> KeyMatch(Lower(labels[j]), LabelPriorityMap).None?;
      assert !MarksP0(labels[i]);
      KeyMatchFirst(Lower(labels[i]), LabelPriorityMap);
    }
  }

  /** The option write goes to the first option whose name contains the target. */
  lemma {:induction false} FirstOptionContainingSpec(options: Dict<string, string>, target: string)
    ensures FirstOptionContaining(options, target).None? <==> forall i :: 0 <= i < |options| ==> !Contains(options[i].0, target)
    ensures FirstOptionContaining(options, target).Some? ==>
      exists i ::
        && 0 <= i < |options|
        && FirstOptionContaining(options, target) == Some(options[i])
        && Contains(options[i].0, target)
        && forall j :: 0 <= j < i ==> !Contains(options[j].0, target)
  {
    if options != [] {
      FirstOptionContainingSpec(options[1..], target);
      assert forall i :: 1 <= i < |options| ==> options[i] == options[1..][i - 1];
      if !Contains(options[0].0, target) && FirstOptionContaining(options, target).Some? {
        var i :| 0 <= i < |options[1..]|
          && FirstOptionContaining(options[1..], target) == Some(options[1..][i])
          && Contains(options[1..][i].0, target)
          && forall j :: 0 <= j < i ==> !Contains(options[1..][j].0, target);
        assert options[i + 1] == options[1..][i];
      }
    }
  }

  /** The asymmetric apply rule. A forced target corrects any value that
      differs from it; a derived target only fills a field that has no
      "Priority" key at all, on an open item. Every write names an option whose
      name contains the target. */
  lemma PriorityDecisionSpec(c: Catalog, x: Content, cv: Values)
    ensures PriorityDecision(c, x, cv).Some? ==>
      var w := PriorityDecision(c, x, cv).value;
      && Contains(w.optionName, w.target)
      && Some((w.optionName, w.optionId)) == FirstOptionContaining(PriorityOptions(c), w.target)
      && w.optionId != ""
      && (w.forced <==> ForcedPriority(x.labels).Some?)
      && (w.forced ==> Some(w.target) == ForcedPriority(x.labels) && Lookup(cv, "Priority") != Some(w.target))
      && (!w.forced ==> Some("Priority") !in cv && IsOpen(x) && w.target == DerivedPriority(x.labels))
    ensures ForcedPriority(x.labels).None? && Some("Priority") in cv ==> PriorityDecision(c, x, cv).None?
  {
    if PriorityDecision(c, x, cv).Some? {
      var w := PriorityDecision(c, x, cv).value;
      FirstOptionContainingSpec(PriorityOptions(c), w.target);
    }
  }

  /** A forced target overrides whatever the field holds, unless it already
      holds exactly the target. */
  lemma ForcedOverridesCurrent(c: Catalog, x: Content, cv: Values, name: string, optId: string)
    requires ForcedPriority(x.labels).Some?
    requires FirstOptionContaining(PriorityOptions(c), ForcedPriority(x.labels).value) == Some((name, optId))
    requires optId != ""
    requires Lookup(cv, "Priority") != ForcedPriority(x.labels)
    ensures c.priority.Some?
    ensures PriorityDecision(c, x, cv) == Some(PriorityWrite(ForcedPriority(x.labels).value, true, c.priority.value.id, name, optId))
  {
    OptionsImplyField(c, ForcedPriority(x.labels).value);
  }

  /** Without a forced target, an open item with no "Priority" key gets the
      derived target written. */
  lemma DerivedFillsGap(c: Catalog, x: Content, cv: Values, name: string, optId: string)
    requires ForcedPriority(x.labels).None? && Some("Priority") !in cv && IsOpen(x)
    requires FirstOptionContaining(PriorityOptions(c), DerivedPriority(x.labels)) == Some((name, optId))
    requires optId != ""
    ensures c.priority.Some?
    ensures PriorityDecision(c, x, cv) == Some(PriorityWrite(DerivedPriority(x.labels), false, c.priority.value.id, name, optId))
  {
    OptionsImplyField(c, DerivedPriority(x.labels));
  }

  /** Labels none of which contains any map key fall back to `DEFAULT_PRIORITY`. */
  lemma {:induction false} DefaultWhenUnmatched(labels: seq<string>)
    requires forall i, k :: 0 <= i < |labels| && 0 <= k < |LabelPriorityMap| ==> !Contains(Lower(labels[i]), LabelPriorityMap[k].0)
    ensures DerivedPriority(labels) == DefaultPriority
  {
    forall i | 0 <= i < |labels|
      ensures KeyMatch(Lower(labels[i]), LabelPriorityMap).None?
    {
      KeyMatchFirst(Lower(labels[i]), LabelPriorityMap);
    }
    LabelMatchFirst(labels, LabelPriorityMap);
  }
}
