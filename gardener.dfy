/** Phase 1 of the gardener (scripts/project_gardener.py:210-355): every board
    item is decided on its own from its snapshot; the loop accumulates the
    content ids already on the board. */
module Gardener {
  import opened Base
  import opened FieldCatalog
  import opened FieldValues
  import opened Board
  import opened Tracker
  import opened StatusRules
  import opened Priority

  const SecondsPerDay := 86400
  const StaleAfterDays := 30

  /** `(now - last_update).days`: whole days, rounded down (the divisor is
      positive, so Dafny's `/` is floor division here). */
  function DaysInactive(now: int, updatedAt: int): int
  {
    (now - updatedAt) / SecondsPerDay
  }

  /** The staleness advisory: open, has a timestamp, more than 30 days
      inactive, and Status is not "Done". */
  predicate ItemStale(item: BoardItem, now: int)
  {
    && item.content.Some?
    && IsOpen(item.content.value)
    && item.updatedAt.Some?
    && DaysInactive(now, item.updatedAt.value) > StaleAfterDays
    && Lookup(Decoded(item.fieldValues), "Status") != Some("Done")
  }

  /** The content id the loop records: only for an item with content, and only
      a truthy id. */
  function SeenId(item: BoardItem): Option<string>
  {
    if item.content.Some? && Truthy(item.content.value.id) then item.content.value.id else None
  }

  /** The ai-pending dispatch: the label swap on the item's issue, when the
      content carries a number and a repository. */
  function DispatchCommands(dryRun: bool, x: Content): seq<Mutation>
  {
    if "ai-pending" in x.labels && x.number.Some? && x.repository.Some?
    then AssignAiToIssue(dryRun, x.repository.value.owner, x.repository.value.name, x.number.value)
    else []
  }

  /** The commands one item issues: its Status write, its Priority write, its
      dispatch, in that order. The clock is not an argument: staleness never
      changes what is issued. */
  function ItemCommands(c: Catalog, item: BoardItem, dryRun: bool): seq<Mutation>
  {
    if item.content.None? then []
    else
      var x := item.content.value;
      var cv := Decoded(item.fieldValues);
      StatusCommands(dryRun, item.id, StatusDecision(c, x, cv))
      + PriorityCommands(dryRun, item.id, PriorityDecision(c, x, cv))
      + DispatchCommands(dryRun, x)
  }

  /** The body of the item loop, lines 218-355. */
  method GardenItem(c: Catalog, item: BoardItem, now: int, dryRun: bool)
    returns (seen: Option<string>, cmds: seq<Mutation>, stale: bool)
    ensures seen == SeenId(item)
    ensures cmds == ItemCommands(c, item, dryRun)
    ensures stale == ItemStale(item, now)
  {
    seen, cmds, stale := None, [], false;
    if item.content.None? {
      return;
    }
    var content := item.content.value;
    if Truthy(content.id) {
      seen := content.id;
    }
    var currentValues := DecodeFieldValues(item.fieldValues);
    var currentStatus := Lookup(currentValues, "Status");
    var statusCmds, _ := RunStatusRules(c, item.id, content, currentValues, dryRun);
    var priorityCmds := RunPriorityRules(c, item.id, content, currentValues, dryRun);
    cmds := statusCmds + priorityCmds;
    if content.state == Some("OPEN") && item.updatedAt.Some? {
      var daysInactive := (now - item.updatedAt.value) / SecondsPerDay;
      stale := daysInactive > StaleAfterDays && currentStatus != Some("Done");
    }
    if "ai-pending" in content.labels && content.number.Some? && content.repository.Some? {
      cmds := cmds + AssignAiToIssue(dryRun, content.repository.value.owner, content.repository.value.name, content.number.value);
    }
  }

  /** The set of content ids collected over the items. */
  function SeenIds(items: seq<BoardItem>): set<string>
  {
    if items == [] then {}
    else
      var last := SeenId(items[|items| - 1]);
      SeenIds(items[..|items| - 1]) + (if last.Some? then {last.value} else {})
  }

  function GardenCommands(c: Catalog, items: seq<BoardItem>, dryRun: bool): seq<Mutation>
  {
    if items == [] then []
    else GardenCommands(c, items[..|items| - 1], dryRun) + ItemCommands(c, items[|items| - 1], dryRun)
  }

  /** Ids of the items the staleness advisory reports, in item order. */
  function StaleItems(items: seq<BoardItem>, now: int): seq<string>
  {
    if items == [] then []
    else StaleItems(items[..|items| - 1], now) + (if ItemStale(items[|items| - 1], now) then [items[|items| - 1].id] else [])
  }

  /** The item loop, lines 215-355. */
  method Garden(c: Catalog, items: seq<BoardItem>, now: int, dryRun: bool)
    returns (contentIdsOnBoard: set<string>, cmds: seq<Mutation>, stale: seq<string>)
    ensures contentIdsOnBoard == SeenIds(items)
    ensures cmds == GardenCommands(c, items, dryRun)
    ensures stale == StaleItems(items, now)
  {
    contentIdsOnBoard, cmds, stale := {}, [], [];
    var i := 0;
    while i < |items|
      invariant 0 <= i <= |items|
      invariant contentIdsOnBoard == SeenIds(items[..i])
      invariant cmds == GardenCommands(c, items[..i], dryRun)
      invariant stale == StaleItems(items[..i], now)
    {
      var seen, itemCmds, itemStale := GardenItem(c, items[i], now, dryRun);
      if seen.Some? {
        contentIdsOnBoard := contentIdsOnBoard + {seen.value};
      }
      cmds := cmds + itemCmds;
      if itemStale {
        stale := stale + [items[i].id];
      }
      assert items[..i + 1][..i] == items[..i];
      i := i + 1;
    }
    assert items[..i] == items;
  }

  /** An id is seen exactly when some item with content carries it as a
      truthy id; items without content add nothing. */
  lemma {:induction false} SeenIdsIff(items: seq<BoardItem>, id: string)
    ensures id in SeenIds(items) <==>
      exists i :: 0 <= i < |items| && items[i].content.Some? && items[i].content.value.id == Some(id) && id != ""
  {
    if items != [] {
      var init := items[..|items| - 1];
      SeenIdsIff(init, id);
      assert forall i :: 0 <= i < |init| ==> init[i] == items[i];
    }
  }

  /** Every field write targets an item that has content. */
  lemma {:induction false} WritesTargetItemsWithContent(c: Catalog, items: seq<BoardItem>, dryRun: bool, m: Mutation)
    requires m in GardenCommands(c, items, dryRun) && m.SetOption?
    ensures exists i :: 0 <= i < |items| && items[i].id == m.itemId && items[i].content.Some?
  {
    var init := items[..|items| - 1];
    var last := items[|items| - 1];
    if m in GardenCommands(c, init, dryRun) {
      WritesTargetItemsWithContent(c, init, dryRun, m);
      var i :| 0 <= i < |init| && init[i].id == m.itemId && init[i].content.Some?;
      assert items[i] == init[i];
    } else {
      assert m in ItemCommands(c, last, dryRun);
      assert last.content.Some?;
      assert m.itemId == last.id;
    }
  }

  /** Under dry run the item loop issues no command at all. */
  lemma {:induction false} DryRunGardenSilent(c: Catalog, items: seq<BoardItem>)
    ensures GardenCommands(c, items, true) == []
  {
    if items != [] {
      DryRunGardenSilent(c, items[..|items| - 1]);
    }
  }

  /** At most one Status write and at most one Priority write per item per
      pass: the SetOption commands of one item number at most two, and at most
      one of them goes to the Status field. */
  lemma ItemWritesBounded(c: Catalog, item: BoardItem, dryRun: bool)
    requires item.content.Some?
    ensures var x := item.content.value;
      var cv := Decoded(item.fieldValues);
      |StatusCommands(dryRun, item.id, StatusDecision(c, x, cv))| <= 1
      && |PriorityCommands(dryRun, item.id, PriorityDecision(c, x, cv))| <= 1
      && |DispatchCommands(dryRun, x)| <= 1
  {
  }

  // ---- Reconciliation reaches a fixed point -------------------------------

  /** The field values after the decided writes land: each write sets its
      field to the chosen option's name. */
  function Applied(cv: Values, s: Option<StatusWrite>, p: Option<PriorityWrite>): Values
  {
    var afterStatus := if s.Some? then cv[Some("Status") := Some(s.value.optionName)] else cv;
    if p.Some? then afterStatus[Some("Priority") := Some(p.value.optionName)] else afterStatus
  }

  /** The option a forced target selects is named exactly the target. */
  predicate ForcedOptionExact(c: Catalog, labels: seq<string>)
  {
    var forced := ForcedPriority(labels);
    (forced.Some? && FirstOptionContaining(PriorityOptions(c), forced.value).Some?) ==>
      FirstOptionContaining(PriorityOptions(c), forced.value).value.0 == forced.value
  }

  /** Idempotence of the field writes: once one pass's Status and Priority
      writes have landed, a second pass over the same content decides no
      Status and no Priority write. It needs a Status that is not the empty
      string and, for a forced target, an option named exactly "P0"/"P1" (see
      ForcedRewriteWithDecoratedOption). The dispatch is not covered: see
      SettledPassIssuesNothing and DispatchThenProgress. */
  lemma ReconcileIdempotent(c: Catalog, x: Content, cv: Values)
    requires Lookup(cv, "Status") != Some("")
    requires ForcedOptionExact(c, x.labels)
    ensures var cvNext := Applied(cv, StatusDecision(c, x, cv), PriorityDecision(c, x, cv));
      StatusDecision(c, x, cvNext).None? && PriorityDecision(c, x, cvNext).None?
  {
    var s := StatusDecision(c, x, cv);
    var p := PriorityDecision(c, x, cv);
    var cvNext := Applied(cv, s, p);
    StatusSettles(c, x, cv, cvNext);
    PrioritySettles(c, x, cv, cvNext);
  }

  /** A fully settled pass: with the field writes landed and no ai-pending
      label left to dispatch, the second pass issues no command at all. */
  lemma SettledPassIssuesNothing(c: Catalog, itemId: string, x: Content, cv: Values, dryRun: bool)
    requires Lookup(cv, "Status") != Some("")
    requires ForcedOptionExact(c, x.labels)
    requires "ai-pending" !in x.labels
    ensures var cvNext := Applied(cv, StatusDecision(c, x, cv), PriorityDecision(c, x, cv));
      StatusCommands(dryRun, itemId, StatusDecision(c, x, cvNext))
      + PriorityCommands(dryRun, itemId, PriorityDecision(c, x, cvNext))
      + DispatchCommands(dryRun, x) == []
  {
    ReconcileIdempotent(c, x, cv);
  }

  /** The Status chain depends on the values only through the Status key: once
      the chosen option's name is the current Status, no rule fires. */
  lemma StatusSettles(c: Catalog, x: Content, cv: Values, cvNext: Values)
    requires Lookup(cv, "Status") != Some("")
    requires var s := StatusDecision(c, x, cv);
      Lookup(cvNext, "Status") == (if s.Some? then Some(s.value.optionName) else Lookup(cv, "Status"))
    ensures StatusDecision(c, x, cvNext).None?
  {
    StatusDecisionFirstMatch(c, x, cv);
  }

  /** Once the chosen Priority option's name is the current Priority, a derived
      target no longer applies and a forced one already holds. */
  lemma PrioritySettles(c: Catalog, x: Content, cv: Values, cvNext: Values)
    requires ForcedOptionExact(c, x.labels)
    requires var p := PriorityDecision(c, x, cv);
      && Lookup(cvNext, "Priority") == (if p.Some? then Some(p.value.optionName) else Lookup(cv, "Priority"))
      && (Some("Priority") in cvNext <==> p.Some? || Some("Priority") in cv)
    ensures PriorityDecision(c, x, cvNext).None?
  {
    var p := PriorityDecision(c, x, cv);
    PriorityDecisionSpec(c, x, cv);
    if p.Some? && p.value.forced {
      assert PriorityTarget(x, cvNext) == Some((p.value.target, true));
    }
  }

  /** With an option named "P0 - Critical", the forced write compares the
      option name with "P0", finds them different, and is issued again on
      every pass although nothing changes. */
  lemma ForcedRewriteWithDecoratedOption()
    ensures
      var c := Catalog(None, Some(SelectField("prio", [("P0 - Critical", "opt0")])));
      var x := Content(Some("I1"), Some("OPEN"), None, ["critical"], [], None, None);
      var cv: Values := map[Some("Priority") := Some("P0 - Critical")];
      && PriorityDecision(c, x, cv) == Some(PriorityWrite("P0", true, "prio", "P0 - Critical", "opt0"))
      && Applied(cv, None, PriorityDecision(c, x, cv)) == cv
  {
    var x := Content(Some("I1"), Some("OPEN"), None, ["critical"], [], None, None);
    Text.LowerUnchanged("critical");
    Text.PrefixContained("critical", "critical");
    assert ForcedPriority(x.labels) == Some("P0");
    Text.PrefixContained("P0 - Critical", "P0");
  }

  /** `gh issue edit --remove-label ai-pending --add-label ai-assigned`. */
  function SwapAiLabels(labels: seq<string>): (r: seq<string>)
    ensures "ai-assigned" in r && "ai-pending" !in r
  {
    var kept := RemoveAll(labels, "ai-pending");
    if "ai-assigned" in kept then kept else kept + ["ai-assigned"]
  }

  function RemoveAll(labels: seq<string>, name: string): (r: seq<string>)
    ensures name !in r
    ensures forall l :: l in r <==> l in labels && l != name
  {
    if labels == [] then []
    else if labels[0] == name then RemoveAll(labels[1..], name)
    else [labels[0]] + RemoveAll(labels[1..], name)
  }

  /** Two-pass convergence of the dispatch: an open, untyped item labelled
      ai-pending and not yet ai-assigned is dispatched in this pass; once this
      pass's field writes and the label swap have landed, the next pass moves
      it to "In Progress" through rule 2a. */
  lemma DispatchThenProgress(c: Catalog, x: Content, cv: Values, dryRun: bool)
    requires !IsClosed(x) && x.typename == None
    requires "ai-pending" in x.labels && "ai-assigned" !in x.labels && x.number.Some? && x.repository.Some?
    requires Lookup(cv, "Status") != Some("In Progress") && HasOption(c, "In Progress")
    ensures !dryRun ==> DispatchCommands(dryRun, x) == [SwapAiLabel(x.repository.value.owner, x.repository.value.name, x.number.value)]
    ensures var landed := Applied(cv, StatusDecision(c, x, cv), PriorityDecision(c, x, cv));
      var next := x.(labels := SwapAiLabels(x.labels));
      StatusDecision(c, next, landed) == Some(WriteFor(c, AiAssigned))
  {
  }
}
