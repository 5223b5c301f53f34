/** The Status precedence chain (scripts/project_gardener.py:245-290): rules
    1, 2a, 2b, 3 and 4, tried in that order, at most one of them writing. */
module StatusRules {
  import opened Base
  import opened Dicts
  import opened FieldCatalog
  import opened FieldValues
  import opened Board
  import opened Tracker

  datatype Rule = ClosedSync | AiAssigned | OpenPullRequest | AssignedIssue | Triage

  /** Position of a rule in the chain. */
  function Rank(r: Rule): nat
  {
    match r
    case ClosedSync => 0
    case AiAssigned => 1
    case OpenPullRequest => 2
    case AssignedIssue => 3
    case Triage => 4
  }

  /** The Status option a rule writes. */
  function TargetName(r: Rule): string
  {
    match r
    case ClosedSync => "Done"
    case Triage => "Todo"
    case _ => "In Progress"
  }

  datatype StatusWrite = StatusWrite(rule: Rule, fieldId: string, optionName: string, optionId: string)

  /** The option id for a Status option name, when it is truthy. */
  predicate HasOption(c: Catalog, name: string)
  {
    Truthy(Get(StatusOptions(c), name))
  }

  /** The condition under which a rule writes, leaving aside the rules before it. */
  predicate Guard(c: Catalog, x: Content, cv: Values, r: Rule)
  {
    var status := Lookup(cv, "Status");
    match r
    case ClosedSync =>
      IsClosed(x) && c.status.Some? && status != Some("Done") && HasOption(c, "Done")
    case AiAssigned =>
      !IsClosed(x) && "ai-assigned" in x.labels && status != Some("In Progress") && HasOption(c, "In Progress")
    case OpenPullRequest =>
      !IsClosed(x) && x.typename == Some("PullRequest") && status != Some("In Progress") && HasOption(c, "In Progress")
    case AssignedIssue =>
      !IsClosed(x) && x.typename == Some("Issue") && |x.assignees| > 0
      && (status == None || status == Some("Todo")) && HasOption(c, "In Progress")
    case Triage =>
      !IsClosed(x) && !Truthy(status) && c.status.Some? && HasOption(c, "Todo")
  }

  /** The write a rule makes: its target option on the Status field. */
  function WriteFor(c: Catalog, r: Rule): StatusWrite
    requires HasOption(c, TargetName(r))
  {
    StatusWrite(r, c.status.value.id, TargetName(r), Get(StatusOptions(c), TargetName(r)).value)
  }

  /** The first rule, in chain order, whose guard holds. */
  function StatusDecision(c: Catalog, x: Content, cv: Values): Option<StatusWrite>
  {
    if Guard(c, x, cv, ClosedSync) then Some(WriteFor(c, ClosedSync))
    else if Guard(c, x, cv, AiAssigned) then Some(WriteFor(c, AiAssigned))
    else if Guard(c, x, cv, OpenPullRequest) then Some(WriteFor(c, OpenPullRequest))
    else if Guard(c, x, cv, AssignedIssue) then Some(WriteFor(c, AssignedIssue))
    else if Guard(c, x, cv, Triage) then Some(WriteFor(c, Triage))
    else None
  }

  /** The commands the chosen Status write issues. */
  function StatusCommands(dryRun: bool, itemId: string, w: Option<StatusWrite>): seq<Mutation>
  {
    if w.Some? then UpdateItemField(dryRun, itemId, w.value.fieldId, w.value.optionId, true) else []
  }

  /** Lines 245-290 as written: each rule checks the `status_updated_in_this_pass`
      flag, and the first write sets it. */
  method RunStatusRules(c: Catalog, itemId: string, x: Content, cv: Values, dryRun: bool)
    returns (cmds: seq<Mutation>, updated: bool)
    ensures cmds == StatusCommands(dryRun, itemId, StatusDecision(c, x, cv))
    ensures updated <==> StatusDecision(c, x, cv).Some?
  {
    var currentStatus := Lookup(cv, "Status");
    var isClosed := x.state == Some("CLOSED") || x.state == Some("MERGED");
    var statusOptions := StatusOptions(c);
    cmds := [];
    updated := false;

    // 1. Closed or merged -> Done
    if isClosed && c.status.Some? && currentStatus != Some("Done") {
      var doneOption := Get(statusOptions, "Done");
      if Truthy(doneOption) {
        cmds := cmds + UpdateItemField(dryRun, itemId, c.status.value.id, doneOption.value, true);
        updated := true;
      }
    }
    // 2a. ai-assigned -> In Progress
    if !updated && !isClosed && "ai-assigned" in x.labels && currentStatus != Some("In Progress") {
      var wipOption := Get(statusOptions, "In Progress");
      if Truthy(wipOption) {
        cmds := cmds + UpdateItemField(dryRun, itemId, c.status.value.id, wipOption.value, true);
        updated := true;
      }
    }
    // 2b. open pull request -> In Progress
    if !updated && !isClosed && x.typename == Some("PullRequest") && currentStatus != Some("In Progress") {
      var wipOption := Get(statusOptions, "In Progress");
      if Truthy(wipOption) {
        cmds := cmds + UpdateItemField(dryRun, itemId, c.status.value.id, wipOption.value, true);
        updated := true;
      }
    }
    // 3. assigned issue, Status None or Todo -> In Progress
    if !updated && !isClosed && x.typename == Some("Issue") && |x.assignees| > 0
       && (currentStatus == None || currentStatus == Some("Todo")) {
      var wipOption := Get(statusOptions, "In Progress");
      if Truthy(wipOption) {
        cmds := cmds + UpdateItemField(dryRun, itemId, c.status.value.id, wipOption.value, true);
        updated := true;
      }
    }
    // 4. empty Status -> Todo
    if !updated && !isClosed && !Truthy(currentStatus) && c.status.Some? {
      var todoOption := Get(statusOptions, "Todo");
      if Truthy(todoOption) {
        cmds := cmds + UpdateItemField(dryRun, itemId, c.status.value.id, todoOption.value, true);
        updated := true;
      }
    }
  }

  /** First match wins: a write happens exactly when some rule's guard holds,
      it comes from a rule whose guard holds and no earlier rule's guard holds,
      and it writes that rule's target option, looked up by exact name. */
  lemma StatusDecisionFirstMatch(c: Catalog, x: Content, cv: Values)
    ensures StatusDecision(c, x, cv).Some? <==> exists r :: Guard(c, x, cv, r)
    ensures StatusDecision(c, x, cv).Some? ==>
      var w := StatusDecision(c, x, cv).value;
      && Guard(c, x, cv, w.rule)
      && (forall r :: Rank(r) < Rank(w.rule) ==> !Guard(c, x, cv, r))
      && w.optionName == TargetName(w.rule)
      && Some(w.optionId) == Get(StatusOptions(c), w.optionName)
      && c.status.Some? && w.fieldId == c.status.value.id
  {
    if exists r :: Guard(c, x, cv, r) {
      var r :| Guard(c, x, cv, r);
      assert StatusDecision(c, x, cv).Some? by {
        match r
        case ClosedSync =>
        case AiAssigned =>
        case OpenPullRequest =>
        case AssignedIssue =>
        case Triage =>
      }
    }
  }

  /** Rule 1 overrides everything: a closed or merged item gets a write exactly
      when the Status field exists, Status is not "Done" and the "Done" option
      exists, and then it is that write; no other rule ever fires on it. */
  lemma ClosedItemGoesDone(c: Catalog, x: Content, cv: Values)
    requires IsClosed(x)
    ensures StatusDecision(c, x, cv).Some? <==>
      c.status.Some? && Lookup(cv, "Status") != Some("Done") && HasOption(c, "Done")
    ensures StatusDecision(c, x, cv).Some? ==>
      StatusDecision(c, x, cv).value == StatusWrite(ClosedSync, c.status.value.id, "Done", Get(StatusOptions(c), "Done").value)
  {
  }

  /** Rules 2b and 3 key on `__typename`; when it is absent, as the items
      query delivers it, they never fire. */
  lemma UntypedContentSkipsTypeRules(c: Catalog, x: Content, cv: Values)
    requires x.typename == None
    ensures StatusDecision(c, x, cv).Some? ==>
      StatusDecision(c, x, cv).value.rule in {ClosedSync, AiAssigned, Triage}
  {
  }
}
