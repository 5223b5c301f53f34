/** Phase 2, the sweeper (scripts/project_gardener.py:357-366): enroll every
    open item of every repository whose id the item loop did not see. */
module Sweeper {
  import opened Tracker

  /** One open issue or pull request as the per-repository query returns it. */
  datatype OpenItem = OpenItem(id: string, title: string)

  /** Ids of one repository's open items that are not on the board, in order. */
  function RepoOrphans(items: seq<OpenItem>, seen: set<string>): seq<string>
  {
    if items == [] then []
    else
      var last := items[|items| - 1];
      RepoOrphans(items[..|items| - 1], seen) + (if last.id !in seen then [last.id] else [])
  }

  /** The orphans of all repositories, repository by repository. */
  function Orphans(repos: seq<seq<OpenItem>>, seen: set<string>): seq<string>
  {
    if repos == [] then []
    else Orphans(repos[..|repos| - 1], seen) + RepoOrphans(repos[|repos| - 1], seen)
  }

  /** One `add_item_to_project` call per orphan. */
  function EnrollCommands(dryRun: bool, ids: seq<string>): seq<Mutation>
  {
    if ids == [] then []
    else EnrollCommands(dryRun, ids[..|ids| - 1]) + AddItemToProject(dryRun, ids[|ids| - 1])
  }

  /** The nested repository/item loop of lines 360-366. */
  method Sweep(repos: seq<seq<OpenItem>>, contentIdsOnBoard: set<string>, dryRun: bool)
    returns (orphans: seq<string>, cmds: seq<Mutation>)
    ensures orphans == Orphans(repos, contentIdsOnBoard)
    ensures cmds == EnrollCommands(dryRun, orphans)
  {
    orphans, cmds := [], [];
    var r := 0;
    while r < |repos|
      invariant 0 <= r <= |repos|
      invariant orphans == Orphans(repos[..r], contentIdsOnBoard)
      invariant cmds == EnrollCommands(dryRun, orphans)
    {
      var openItems := repos[r];
      var k := 0;
      ghost var before := orphans;
      while k < |openItems|
        invariant 0 <= k <= |openItems|
        invariant orphans == before + RepoOrphans(openItems[..k], contentIdsOnBoard)
        invariant cmds == EnrollCommands(dryRun, orphans)
      {
        if openItems[k].id !in contentIdsOnBoard {
          orphans := orphans + [openItems[k].id];
          cmds := cmds + AddItemToProject(dryRun, openItems[k].id);
        }
        assert openItems[..k + 1][..k] == openItems[..k];
        k := k + 1;
      }
      assert openItems[..k] == openItems;
      assert repos[..r + 1][..r] == repos[..r];
      r := r + 1;
    }
    assert repos[..r] == repos;
  }

  lemma {:induction false} RepoOrphansExact(items: seq<OpenItem>, seen: set<string>, id: string)
    ensures id in RepoOrphans(items, seen) <==> id !in seen && exists i :: 0 <= i < |items| && items[i].id == id
  {
    if items != [] {
      var init := items[..|items| - 1];
      RepoOrphansExact(init, seen, id);
      assert forall i :: 0 <= i < |init| ==> init[i] == items[i];
    }
  }

  /** The sweeper enrolls exactly the open items whose id is not on the board. */
  lemma {:induction false} OrphansExact(repos: seq<seq<OpenItem>>, seen: set<string>, id: string)
    ensures id in Orphans(repos, seen) <==>
      id !in seen && exists r, i :: 0 <= r < |repos| && 0 <= i < |repos[r]| && repos[r][i].id == id
  {
    if repos != [] {
      var init := repos[..|repos| - 1];
      OrphansExact(init, seen, id);
      RepoOrphansExact(repos[|repos| - 1], seen, id);
      assert forall r :: 0 <= r < |init| ==> init[r] == repos[r];
      if id !in seen && exists r, i :: 0 <= r < |repos| && 0 <= i < |repos[r]| && repos[r][i].id == id {
        var r, i :| 0 <= r < |repos| && 0 <= i < |repos[r]| && repos[r][i].id == id;
        if r < |init| {
          assert init[r][i].id == id;
        }
      }
    }
  }

  /** Outside dry run, one AddToProject per orphan, in order; under dry run none. */
  lemma {:induction false} EnrollCommandsSpec(dryRun: bool, ids: seq<string>)
    ensures dryRun ==> EnrollCommands(dryRun, ids) == []
    ensures !dryRun ==>
      && |EnrollCommands(dryRun, ids)| == |ids|
      && forall k :: 0 <= k < |ids| ==> EnrollCommands(dryRun, ids)[k] == AddToProject(ids[k])
  {
    if ids != [] {
      EnrollCommandsSpec(dryRun, ids[..|ids| - 1]);
    }
  }
}
