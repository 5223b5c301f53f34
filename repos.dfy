/** One repository as `gh repo list --json name,description,repositoryTopics`
    reports it; shared by the audit (scripts/audit_repos.py) and the
    remediation (scripts/fix_compliance.py). */
module Repos {
  import opened Base

  /** A missing or null description and a missing or null topic list are
      both None. */
  datatype RepoListing = RepoListing(name: string, description: Option<string>, topics: Option<seq<string>>)

  /** `repo.get('repositoryTopics', []) or []` is empty. */
  predicate LacksTopics(r: RepoListing)
  {
    r.topics.None? || r.topics.value == []
  }
}
