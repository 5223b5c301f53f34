/** The tracker's write paths, each guarded by the dry-run flag
    (scripts/project_gardener.py:133-163, 368-396). A call's result is the
    list of commands it actually issues. */
module Tracker {

  datatype Mutation =
    | SetOption(itemId: string, fieldId: string, optionId: string)
    | AddToProject(contentId: string)
    | SwapAiLabel(owner: string, repo: string, number: int)

  /** `update_item_field`: nothing under dry run; only the single-select kind
      issues a mutation. */
  function UpdateItemField(dryRun: bool, itemId: string, fieldId: string, value: string, isSingleSelect: bool): (r: seq<Mutation>)
    ensures r != [] <==> !dryRun && isSingleSelect
    ensures forall m :: m in r <==> !dryRun && isSingleSelect && m == SetOption(itemId, fieldId, value)
  {
    if dryRun then []
    else if isSingleSelect then [SetOption(itemId, fieldId, value)]
    else []
  }

  /** `add_item_to_project`. */
  function AddItemToProject(dryRun: bool, contentId: string): (r: seq<Mutation>)
    ensures forall m :: m in r <==> !dryRun && m == AddToProject(contentId)
  {
    if dryRun then [] else [AddToProject(contentId)]
  }

  /** `assign_ai_to_issue`: swaps `ai-pending` for `ai-assigned` on the issue. */
  function AssignAiToIssue(dryRun: bool, owner: string, repo: string, number: int): (r: seq<Mutation>)
    ensures forall m :: m in r <==> !dryRun && m == SwapAiLabel(owner, repo, number)
  {
    if dryRun then [] else [SwapAiLabel(owner, repo, number)]
  }
}
