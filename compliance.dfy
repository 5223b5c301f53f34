/** Compliance remediation (scripts/fix_compliance.py): topics suggested from a
    repository's name, a default description, and the edits issued for every
    repository that lacks either. */
module Compliance {
  import opened Base
  import opened Text
  import opened Repos

  const Org := "atnplex"

  /** `TOPIC_MAP`, in its iteration order. */
  const TopicMap: seq<(string, seq<string>)> :=
    [("infra", ["infrastructure", "terraform", "automation"]),
     ("ai", ["ai", "machine-learning", "llm"]),
     ("docs", ["documentation", "knowledge-base"]),
     ("library", ["python", "library", "utility"]),
     ("action", ["github-actions", "ci-cd"]),
     ("docker", ["docker", "container"]),
     ("home", ["homelab", "self-hosted"]),
     ("bot", ["bot", "automation"]),
     ("api", ["api", "service"]),
     ("web", ["web", "frontend"]),
     ("repo", ["template", "scaffolding"])]

  const DefaultTopics: seq<string> := ["atnplex"]

  /** The elements of a list, as a set. */
  function Elements(s: seq<string>): set<string>
  {
    set t | t in s
  }

  /** The tags of every map entry whose key is a substring of `nameLower`. */
  function MatchedTags(nameLower: string, m: seq<(string, seq<string>)>): set<string>
  {
    if m == [] then {}
    else (if Contains(nameLower, m[0].0) then Elements(m[0].1) else {}) + MatchedTags(nameLower, m[1..])
  }

  /** The tags added for two repositories known by their exact name. */
  function SpecialTopics(name: string): set<string>
  {
    (if name == "infrastructure" then {"devops", "management"} else {})
    + (if name == ".github" then {"configuration", "governance"} else {})
  }

  /** Every topic `get_topics_for_repo` suggests for `name`. */
  function TopicSet(name: string): set<string>
  {
    Elements(DefaultTopics) + MatchedTags(Lower(name), TopicMap) + SpecialTopics(name)
  }

  /** `s` lists the elements of `S`, each once, in some order. */
  predicate Lists(s: seq<string>, S: set<string>)
  {
    && Elements(s) == S
    && forall i, j :: 0 <= i < j < |s| ==> s[i] != s[j]
  }

  /** `list(topics)`: the set's elements in an order Python leaves unspecified. */
  method ListOf(S: set<string>) returns (s: seq<string>)
    ensures Lists(s, S)
  {
    s := [];
    var rest := S;
    while rest != {}
      invariant Elements(s) + rest == S
      invariant Elements(s) !! rest
      invariant forall i, j :: 0 <= i < j < |s| ==> s[i] != s[j]
      decreases |rest|
    {
      var t :| t in rest;
      s := s + [t];
      rest := rest - {t};
    }
  }

  /** Lines 58-64: the defaults, then the tags of every key that occurs in
      the lower-cased name, in map order. */
  method CollectMatched(nameLower: string) returns (acc: set<string>)
    ensures acc == Elements(DefaultTopics) + MatchedTags(nameLower, TopicMap)
  {
    acc := Elements(DefaultTopics);
    var i := 0;
    while i < |TopicMap|
      invariant 0 <= i <= |TopicMap|
      invariant acc + MatchedTags(nameLower, TopicMap[i..]) == Elements(DefaultTopics) + MatchedTags(nameLower, TopicMap)
    {
      var (key, tags) := TopicMap[i];
      assert TopicMap[i..][1..] == TopicMap[i + 1..];
      if Contains(nameLower, key) {
        acc := acc + Elements(tags);
      }
      i := i + 1;
    }
  }

  /** Lines 56-70: the matched topics, the two exact-name special cases, and
      the set listed. */
  method GetTopicsForRepo(name: string) returns (topics: seq<string>)
    ensures Lists(topics, TopicSet(name))
  {
    var matched := CollectMatched(Lower(name));
    var acc := AddSpecialTopics(name, matched);
    TopicSetSplit(name, matched, acc);
    topics := ListOf(acc);
  }

  /** Lines 67-68: the two exact-name `update` calls. */
  method AddSpecialTopics(name: string, topics: set<string>) returns (acc: set<string>)
    ensures acc == topics + SpecialTopics(name)
  {
    acc := topics;
    if name == "infrastructure" {
      acc := acc + {"devops", "management"};
    }
    if name == ".github" {
      acc := acc + {"configuration", "governance"};
    }
  }

  lemma TopicSetSplit(name: string, matched: set<string>, acc: set<string>)
    requires matched == Elements(DefaultTopics) + MatchedTags(Lower(name), TopicMap)
    requires acc == matched + SpecialTopics(name)
    ensures acc == TopicSet(name)
  {
  }

  /** A tag is matched exactly when some key found in the name carries it. */
  lemma {:induction false} MatchedTagsIff(nameLower: string, m: seq<(string, seq<string>)>, t: string)
    ensures t in MatchedTags(nameLower, m) <==> exists k :: 0 <= k < |m| && Contains(nameLower, m[k].0) && t in m[k].1
  {
    if m != [] {
      MatchedTagsIff(nameLower, m[1..], t);
      assert forall k :: 1 <= k < |m| ==> m[k] == m[1..][k - 1];
      if t in MatchedTags(nameLower, m[1..]) {
        var k :| 0 <= k < |m[1..]| && Contains(nameLower, m[1..][k].0) && t in m[1..][k].1;
        assert m[k + 1] == m[1..][k];
      }
    }
  }

  /** The suggested topics are exactly the defaults, the tags of every key
      contained in the lower-cased name, and the exact-name special cases. */
  lemma TopicSetExact(name: string, t: string)
    ensures t in TopicSet(name) <==>
      || t == "atnplex"
      || (exists k :: 0 <= k < |TopicMap| && Contains(Lower(name), TopicMap[k].0) && t in TopicMap[k].1)
      || (name == "infrastructure" && t in {"devops", "management"})
      || (name == ".github" && t in {"configuration", "governance"})
  {
    assert t in TopicSet(name) <==> t in Elements(DefaultTopics) || t in MatchedTags(Lower(name), TopicMap) || t in SpecialTopics(name);
    assert t in Elements(DefaultTopics) <==> t == "atnplex";
    SpecialTopicsIff(name, t);
    MatchedTagsIff(Lower(name), TopicMap, t);
  }

  lemma SpecialTopicsIff(name: string, t: string)
    ensures t in SpecialTopics(name) <==> (name == "infrastructure" && t in {"devops", "management"}) || (name == ".github" && t in {"configuration", "governance"})
  {
  }

  /** "atnplex" is always suggested, and so is every tag of every matched key. */
  lemma TopicsCoverMatches(name: string, k: int)
    requires 0 <= k < |TopicMap| && Contains(Lower(name), TopicMap[k].0)
    ensures "atnplex" in TopicSet(name)
    ensures forall t :: t in TopicMap[k].1 ==> t in TopicSet(name)
  {
    TopicSetExact(name, "atnplex");
    forall t | t in TopicMap[k].1
      ensures t in TopicSet(name)
    {
      TopicSetExact(name, t);
    }
  }

  /** The generated description: never empty, and naming the repository
      except for the organisation-wide `.github` repository. */
  function DefaultDescription(name: string): (d: string)
    ensures d != ""
    ensures name != ".github" ==> Contains(d, name)
  {
    InfixContained("Official repository for ", name, " within the atnplex ecosystem.");
    if name == ".github" then "Organization-wide configuration and governance."
    else "Official repository for " + name + " within the atnplex ecosystem."
  }

  /** A `gh repo edit` command. */
  datatype Edit = AddTopics(repo: string, topics: seq<string>) | SetDescription(repo: string, description: string)

  /** `--add-topic t` for each topic, in order. */
  function TopicFlags(topics: seq<string>): (r: seq<string>)
    ensures |r| == 2 * |topics|
  {
    if topics == [] then [] else ["--add-topic", topics[0]] + TopicFlags(topics[1..])
  }

  /** The argument vector of an edit. */
  function EditArgs(e: Edit): seq<string>
  {
    match e
    case AddTopics(repo, topics) => ["gh", "repo", "edit", repo] + TopicFlags(topics)
    case SetDescription(repo, d) => ["gh", "repo", "edit", repo, "--description", d]
  }

  /** Lines 92-94: the topic command, extended two arguments per topic. */
  method BuildTopicCommand(name: string, topics: seq<string>) returns (cmd: seq<string>)
    ensures cmd == EditArgs(AddTopics(Org + "/" + name, topics))
  {
    cmd := ["gh", "repo", "edit", Org + "/" + name];
    var i := 0;
    while i < |topics|
      invariant 0 <= i <= |topics|
      invariant cmd + TopicFlags(topics[i..]) == EditArgs(AddTopics(Org + "/" + name, topics))
    {
      assert topics[i..] == [topics[i]] + topics[i + 1..];
      cmd := cmd + ["--add-topic", topics[i]];
      i := i + 1;
    }
  }

  /** Every topic appears in the command right after its own `--add-topic`. */
  lemma {:induction false} TopicFlagsSpec(topics: seq<string>, i: int)
    requires 0 <= i < |topics|
    ensures TopicFlags(topics)[2 * i] == "--add-topic" && TopicFlags(topics)[2 * i + 1] == topics[i]
  {
    if i > 0 {
      TopicFlagsSpec(topics[1..], i - 1);
    }
  }

  /** The topic edit for one repository, given the order in which its
      suggested topics were listed: only when it has none, and not under dry run. */
  function TopicEdits(r: RepoListing, dryRun: bool, listing: seq<string>): seq<Edit>
  {
    if LacksTopics(r) && !dryRun then [AddTopics(Org + "/" + r.name, listing)] else []
  }

  /** The description edit for one repository: only when its description is
      falsy, and not under dry run. */
  function DescriptionEdits(r: RepoListing, dryRun: bool): seq<Edit>
  {
    if !Truthy(r.description) && !dryRun then [SetDescription(Org + "/" + r.name, DefaultDescription(r.name))] else []
  }

  /** The edits for one repository, topics first. */
  function RepoEdits(r: RepoListing, dryRun: bool, listing: seq<string>): seq<Edit>
  {
    TopicEdits(r, dryRun, listing) + DescriptionEdits(r, dryRun)
  }

  /** Lines 100-103: the generated description, with its `.github` override. */
  method GenerateDescription(name: string) returns (d: string)
    ensures d == DefaultDescription(name)
    ensures Truthy(Some(d))
    ensures name != ".github" ==> Contains(d, name)
  {
    d := "Official repository for " + name + " within the atnplex ecosystem.";
    if name == ".github" {
      d := "Organization-wide configuration and governance.";
    }
  }

  /** Lines 79-108 for one repository: the topics and description it would
      get, and the edits issued for them. */
  method RemediateRepo(r: RepoListing, dryRun: bool)
    returns (newTopics: Option<seq<string>>, newDescription: Option<string>, edits: seq<Edit>)
    ensures newTopics.Some? <==> LacksTopics(r)
    ensures ListsSuggested(r, if newTopics.Some? then newTopics.value else [])
    ensures newDescription == (if Truthy(r.description) then None else Some(DefaultDescription(r.name)))
    ensures edits == RepoEdits(r, dryRun, if newTopics.Some? then newTopics.value else [])
  {
    newTopics, newDescription := None, None;
    var topicEdits, descriptionEdits := [], [];
    var currentTopics := if r.topics.Some? then r.topics.value else [];
    if currentTopics == [] {
      var suggested := GetTopicsForRepo(r.name);
      newTopics := Some(suggested);
      if !dryRun {
        topicEdits := [AddTopics(Org + "/" + r.name, suggested)];
      }
    }
    if !Truthy(r.description) {
      var d := GenerateDescription(r.name);
      newDescription := Some(d);
      if !dryRun {
        descriptionEdits := [SetDescription(Org + "/" + r.name, d)];
      }
    }
    edits := topicEdits + descriptionEdits;
  }

  /** The repository once a run's edits have landed: the listed topics where
      it had none, the generated description where it had a falsy one. */
  function Landed(r: RepoListing, listing: seq<string>): RepoListing
  {
    RepoListing(
      r.name,
      if Truthy(r.description) then r.description else Some(DefaultDescription(r.name)),
      if LacksTopics(r) then Some(listing) else r.topics)
  }

  /** Remediation settles in one run: once the topic and description edits
      have landed, the repository lacks neither, so a second run suggests
      nothing and issues no edit. It rests on "atnplex" always being
      suggested and the generated description never being empty. */
  lemma {:induction false} RemediationSettles(r: RepoListing, listing: seq<string>, dryRun: bool, nextListing: seq<string>)
    requires ListsSuggested(r, listing)
    ensures !LacksTopics(Landed(r, listing))
    ensures Truthy(Landed(r, listing).description)
    ensures RepoEdits(Landed(r, listing), dryRun, nextListing) == []
  {
    if LacksTopics(r) {
      TopicSetExact(r.name, "atnplex");
      assert "atnplex" in Elements(listing);
    }
  }

  /** `listing` is the topic list suggested for a repository without topics. */
  predicate ListsSuggested(r: RepoListing, listing: seq<string>)
  {
    LacksTopics(r) ==> Lists(listing, TopicSet(r.name))
  }

  /** The edits for all repositories, in order. */
  function AllEdits(repos: seq<RepoListing>, dryRun: bool, listings: seq<seq<string>>): seq<Edit>
    requires |listings| == |repos|
  {
    if repos == [] then []
    else RepoEdits(repos[0], dryRun, listings[0]) + AllEdits(repos[1..], dryRun, listings[1..])
  }

  /** Lines 78-108: every repository in turn. `listings` records, per
      repository, the topic order chosen (empty when it had topics). */
  method Remediate(repos: seq<RepoListing>, dryRun: bool)
    returns (edits: seq<Edit>, listings: seq<seq<string>>)
    ensures |listings| == |repos|
    ensures forall i :: 0 <= i < |repos| ==> ListsSuggested(repos[i], listings[i])
    ensures edits == AllEdits(repos, dryRun, listings)
  {
    edits, listings := [], [];
    var i := 0;
    while i < |repos|
      invariant 0 <= i <= |repos|
      invariant |listings| == i
      invariant forall j :: 0 <= j < i ==> ListsSuggested(repos[j], listings[j])
      invariant edits == AllEdits(repos[..i], dryRun, listings)
    {
      var newTopics, _, repoEdits := RemediateRepo(repos[i], dryRun);
      var listing := if newTopics.Some? then newTopics.value else [];
      AllEditsStep(repos, dryRun, listings, i, listing);
      ListingsStep(repos, listings, i, listing);
      edits := edits + repoEdits;
      listings := listings + [listing];
      i := i + 1;
    }
    assert repos[..i] == repos;
  }

  lemma ListingsStep(repos: seq<RepoListing>, listings: seq<seq<string>>, i: int, listing: seq<string>)
    requires 0 <= i < |repos| && |listings| == i
    requires forall j :: 0 <= j < i ==> ListsSuggested(repos[j], listings[j])
    requires ListsSuggested(repos[i], listing)
    ensures forall j :: 0 <= j < i + 1 ==> ListsSuggested(repos[j], (listings + [listing])[j])
  {
  }

  lemma AllEditsStep(repos: seq<RepoListing>, dryRun: bool, listings: seq<seq<string>>, i: int, listing: seq<string>)
    requires 0 <= i < |repos| && |listings| == i
    ensures AllEdits(repos[..i + 1], dryRun, listings + [listing])
         == AllEdits(repos[..i], dryRun, listings) + RepoEdits(repos[i], dryRun, listing)
  {
    assert repos[..i + 1] == repos[..i] + [repos[i]];
    AllEditsSnoc(repos[..i], dryRun, listings, repos[i], listing);
  }

  lemma {:induction false} AllEditsSnoc(repos: seq<RepoListing>, dryRun: bool, listings: seq<seq<string>>, r: RepoListing, listing: seq<string>)
    requires |listings| == |repos|
    ensures AllEdits(repos + [r], dryRun, listings + [listing])
         == AllEdits(repos, dryRun, listings) + RepoEdits(r, dryRun, listing)
  {
    if repos != [] {
      assert (repos + [r])[1..] == repos[1..] + [r];
      assert (listings + [listing])[1..] == listings[1..] + [listing];
      AllEditsSnoc(repos[1..], dryRun, listings[1..], r, listing);
    }
  }

  /** Under DRY_RUN no edit is issued. */
  lemma {:induction false} DryRunEditsNothing(repos: seq<RepoListing>, listings: seq<seq<string>>)
    requires |listings| == |repos|
    ensures AllEdits(repos, true, listings) == []
  {
    if repos != [] {
      DryRunEditsNothing(repos[1..], listings[1..]);
    }
  }

  /** Edits touch only repositories with a gap: topics are added only where
      there were none, a description set only where it was falsy, and always
      to the generated text. */
  lemma {:induction false} EditsOnlyFillGaps(repos: seq<RepoListing>, dryRun: bool, listings: seq<seq<string>>, e: Edit)
    requires |listings| == |repos|
    requires e in AllEdits(repos, dryRun, listings)
    ensures e.AddTopics? ==>
      exists i :: 0 <= i < |repos| && LacksTopics(repos[i]) && e == AddTopics(Org + "/" + repos[i].name, listings[i])
    ensures e.SetDescription? ==>
      exists i :: 0 <= i < |repos| && !Truthy(repos[i].description) && e == SetDescription(Org + "/" + repos[i].name, DefaultDescription(repos[i].name))
  {
    if e in RepoEdits(repos[0], dryRun, listings[0]) {
      assert e.AddTopics? ==> LacksTopics(repos[0]) && e == AddTopics(Org + "/" + repos[0].name, listings[0]);
    } else {
      EditsOnlyFillGaps(repos[1..], dryRun, listings[1..], e);
      if e.AddTopics? {
        var i :| 0 <= i < |repos[1..]| && LacksTopics(repos[1..][i]) && e == AddTopics(Org + "/" + repos[1..][i].name, listings[1..][i]);
        assert repos[i + 1] == repos[1..][i] && listings[i + 1] == listings[1..][i];
      } else if e.SetDescription? {
        var i :| 0 <= i < |repos[1..]| && !Truthy(repos[1..][i].description) && e == SetDescription(Org + "/" + repos[1..][i].name, DefaultDescription(repos[1..][i].name));
        assert repos[i + 1] == repos[1..][i];
      }
    }
  }
}
