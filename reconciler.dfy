/** The whole gardener run, `main` of scripts/project_gardener.py:193-366:
    project and catalog first, then the item loop, then the sweeper on the
    complete set of content ids. Fetch results are inputs. */
module Reconciler {
  import opened Base
  import opened FieldCatalog
  import opened Board
  import opened Tracker
  import opened Gardener
  import opened Sweeper

  /** What `fetch_project_data` returns: the project id and its field nodes. */
  datatype Project = Project(id: string, fields: seq<FieldNode>)

  /** How a run ends: no project (the script prints that it failed to fetch
      it), a catalog step that raises, or the commands issued, the stale items
      reported and the orphans found. */
  datatype RunOutcome =
    | ProjectNotFound
    | CatalogFailed(error: CatalogError)
    | Finished(mutations: seq<Mutation>, staleItems: seq<string>, orphans: seq<string>)

  method Run(dryRun: bool, project: Option<Project>, items: seq<BoardItem>, repos: seq<seq<OpenItem>>, now: int)
    returns (outcome: RunOutcome)
    ensures project.None? || project.value.id == "" ==> outcome == ProjectNotFound
    ensures project.Some? && project.value.id != "" && BuildCatalog(project.value.fields).Err? ==>
      outcome == CatalogFailed(BuildCatalog(project.value.fields).error)
    ensures project.Some? && project.value.id != "" && BuildCatalog(project.value.fields).Ok? ==>
      outcome == Finished(
        GardenCommands(BuildCatalog(project.value.fields).value, items, dryRun)
          + EnrollCommands(dryRun, Orphans(repos, SeenIds(items))),
        StaleItems(items, now),
        Orphans(repos, SeenIds(items)))
  {
    if project.None? || project.value.id == "" {
      return ProjectNotFound;
    }
    var catalog := BuildCatalog(project.value.fields);
    if catalog.Err? {
      return CatalogFailed(catalog.error);
    }
    var contentIdsOnBoard, gardenCmds, stale := Garden(catalog.value, items, now, dryRun);
    var orphans, sweepCmds := Sweep(repos, contentIdsOnBoard, dryRun);
    outcome := Finished(gardenCmds + sweepCmds, stale, orphans);
  }

  /** Dry run is threaded through every write path: a dry run issues no
      command, whatever the board holds. */
  lemma DryRunIssuesNothing(c: Catalog, items: seq<BoardItem>, repos: seq<seq<OpenItem>>)
    ensures GardenCommands(c, items, true) + EnrollCommands(true, Orphans(repos, SeenIds(items))) == []
  {
    DryRunGardenSilent(c, items);
    EnrollCommandsSpec(true, Orphans(repos, SeenIds(items)));
  }

  /** The sweeper runs on the complete on-board set: an open item is enrolled
      exactly when no board item with content carries its id. */
  lemma EnrolledExactlyOffBoard(items: seq<BoardItem>, repos: seq<seq<OpenItem>>, id: string)
    ensures id in Orphans(repos, SeenIds(items)) <==>
      && (exists r, i :: 0 <= r < |repos| && 0 <= i < |repos[r]| && repos[r][i].id == id)
      && !(exists j :: 0 <= j < |items| && items[j].content.Some? && items[j].content.value.id == Some(id) && id != "")
  {
    OrphansExact(repos, SeenIds(items), id);
    SeenIdsIff(items, id);
  }
}
