# Board reconciliation for the atnplex organization, in Dafny

This project models the organisation's project-board gardener
(`scripts/project_gardener.py`) and proves properties of the model. The
gardener reads the board's field catalog and its items. For each item it
decides the Status write and the Priority write, if any. It reports stale
items and dispatches `ai-pending` issues. A sweeper then enrols every open
issue or pull request of every repository that is not yet on the board.
Two smaller scripts are modelled alongside it:

- the compliance remediation (`scripts/fix_compliance.py`), which suggests
  topics and a description for repositories that lack them;
- the repository audit (`scripts/audit_repos.py`), which scores every
  repository on three checks and counts the fully compliant ones.

The model is organised by concern:

- `Base`, `Text`, `Dicts`, `Repos`: shared pieces.
  - Python truthiness of an optional string.
  - `str.lower()` and the substring test `a in b`.
  - Insertion-ordered dicts as association lists, where the last assignment
    to a key wins and the key keeps its first position.
  - The repository listing.
- `Board`, `Tracker`: the board's data model and the three write commands.
  Every command is returned as a `Mutation` value; under dry run none is
  returned.
- `FieldCatalog`: `field_map`, `status_options` and `priority_options`,
  including the case in which the script raises.
- `FieldValues`: decoding an item's field values into `current_values`. A
  method is proved against the function `Decoded`.
- `StatusRules`: the Status precedence chain (rules 1, 2a, 2b, 3, 4). The
  method follows the source's `status_updated_in_this_pass` flag. It is
  proved equal to a first-match decision over the rules' guards.
- `Priority`: the forced label scan, the derived lookup in
  `LABEL_PRIORITY_MAP`, the substring option lookup and the asymmetric apply
  rule. Each loop with `break` is a method proved against its function.
- `Gardener`: one item, the item loop, staleness, the dispatch, and the
  fixed-point properties.
- `Sweeper`: the orphan scan.
- `Reconciler`: the whole run.
- `Compliance`: topic suggestion, the generated description and the edit
  commands.
- `Audit`: the checks, the score, the compliant count, the percentage and
  the status column.
- `Scenarios`: small concrete boards worked through the model.

### Behaviours of the source worth knowing

- The items query never asks for `__typename`. Rules 2b (open pull request)
  and 3 (assigned issue) therefore never fire on real data. The model keeps
  the type name as an input, and `StatusRules.UntypedContentSkipsTypeRules`
  shows that the two rules are dead when it is absent.
- A re-run can issue a write again with nothing changed.
  - The forced Priority rule compares the current option NAME with the bare
    target "P0" or "P1". The option itself is looked up by substring, so with
    an option named "P0 - Critical" the forced write is issued again on every
    pass. `Gardener.ForcedRewriteWithDecoratedOption` shows this.
  - An item whose Status is the empty string takes two passes to settle:
    "Todo" first, then possibly "In Progress".
  - Idempotence of the field writes (`Gardener.ReconcileIdempotent`) is
    proved under both exclusions, with the item's content unchanged. The
    ai-pending dispatch and its label swap lie outside it: while the label
    stays, the dispatch is issued again on every pass, and once the swap
    lands a further "In Progress" write follows
    (`Gardener.DispatchThenProgress`). Without an ai-pending label the whole
    pass issues nothing (`Gardener.SettledPassIssuesNothing`).
- The percentage in the audit report divides by the total only when the
  total is positive. An empty organisation reports 0%.

## Model

| member | source | states |
|---|---|---|
| Text.Lower | scripts/project_gardener.py:299 | lower-casing keeps the length and maps every character through the ASCII lower-case map |
| Dicts.Put | scripts/project_gardener.py:207-208 | assigning a key keeps the keys distinct and adds no key but the one assigned |
| Dicts.GetPut | scripts/project_gardener.py:207-208 | after `d[k] = v`, `d.get(k)` is `v` and every other key reads as before |
| Dicts.FromPairs | scripts/project_gardener.py:203 | a dict built from pairs has distinct keys |
| Dicts.GetFromPairs | scripts/project_gardener.py:203-208 | in a dict comprehension a later pair for the same key overwrites an earlier one |
| Dicts.PutNew | scripts/project_gardener.py:207-208 | a new key goes to the end of the iteration order |
| Dicts.FromDistinctPairs | scripts/project_gardener.py:207-208 | without repeated names the option dict keeps the options exactly, in order |
| Tracker.UpdateItemField | scripts/project_gardener.py:133-149 | a write command exists exactly when not in dry run and the field is single-select, and it is the option write for that item and field |
| Tracker.AddItemToProject | scripts/project_gardener.py:151-163 | outside dry run, exactly the enrol command for that content; under dry run, nothing |
| Tracker.AssignAiToIssue | scripts/project_gardener.py:368-385 | outside dry run, exactly the ai-pending/ai-assigned label swap on that issue; under dry run, nothing |
| FieldCatalog.FieldPairs | scripts/project_gardener.py:203 | the (name, field) pairs of `field_map`, one per node, in node order |
| FieldCatalog.FieldMapLast | scripts/project_gardener.py:203-205 | `field_map.get(name)` is the last field node carrying that name |
| FieldCatalog.BuildCatalogSpec | scripts/project_gardener.py:203-208 | the catalog step fails exactly when a field node has no name, or the Status or Priority field has no options; otherwise the Status and Priority fields are present exactly when some node carries the name, with that node's id, and their option dicts are built from that node's options |
| FieldCatalog.LastNamedIsNamed | scripts/project_gardener.py:203-205 | the field found under a name carries that name |
| FieldCatalog.OptionDictLast | scripts/project_gardener.py:207-208 | looking a name up in an option dict gives the id of the last option node of that name |
| FieldCatalog.StatusOptionLookup | scripts/project_gardener.py:204-207 | `status_options.get(name)` is the id of the last option of that name on the last field named "Status", and nothing without a Status field |
| FieldCatalog.PriorityOptionLookup | scripts/project_gardener.py:205-208 | `priority_options.get(name)` is the id of the last option of that name on the last field named "Priority", and nothing without a Priority field |
| FieldValues.DecodeFieldValues | scripts/project_gardener.py:235-243 | the loop over the field-value nodes builds exactly `Decoded(nodes)` |
| FieldValues.DecodedKeys | scripts/project_gardener.py:236-243 | a field name is a key of `current_values` exactly when some non-empty node names that field |
| FieldValues.DecodedLastWins | scripts/project_gardener.py:238-243 | a key's value comes from the last node naming that field (name, else text, else date, else None) |
| StatusRules.RunStatusRules | scripts/project_gardener.py:245-290 | the flag-threaded chain issues exactly the commands of the first-match decision, and the flag ends set exactly when a rule wrote |
| StatusRules.StatusDecisionFirstMatch | scripts/project_gardener.py:245-290 | a Status write happens exactly when some rule's guard holds; it comes from a rule whose guard holds, no earlier rule's guard holds, and it writes that rule's target option looked up by exact name on the Status field |
| StatusRules.ClosedItemGoesDone | scripts/project_gardener.py:250-258 | a closed or merged item gets a write exactly when the Status field exists, Status is not "Done" and a "Done" option exists; the write is "Done" by rule 1 |
| StatusRules.UntypedContentSkipsTypeRules | scripts/project_gardener.py:268-282 | without a type name only rules 1, 2a and 4 can write |
| Priority.ScanForcedPriority | scripts/project_gardener.py:298-308 | the label scan with `break` returns the forced target, and the force flag is set exactly when there is one |
| Priority.ForcedPriorityFirstMatch | scripts/project_gardener.py:298-308 | no forced target exactly when no lower-cased label contains "critical", "p0", "high" or "p1"; otherwise the first such label decides, P0 winning within it |
| Priority.DerivePriority | scripts/project_gardener.py:311-319 | the nested label/map loops return the derived target, `DEFAULT_PRIORITY` when nothing matches |
| Priority.KeyMatchFirst | scripts/project_gardener.py:314-317 | the derived value for one label is the priority of the first map key, in map order, that occurs in it; none when no key occurs |
| Priority.LabelMatchFirst | scripts/project_gardener.py:312-318 | the first label, in label order, that contains any key decides; none when no label does |
| Priority.DerivedNeverP0 | scripts/project_gardener.py:298-319 | without a forced target the derived priority is P1, P2 or P3, never P0 |
| Priority.DefaultWhenUnmatched | scripts/project_gardener.py:311-319 | labels containing no map key fall back to "P2" |
| Priority.FindOption | scripts/project_gardener.py:324-329 | the option scan with `break` returns the first option whose name contains the target |
| Priority.FirstOptionContainingSpec | scripts/project_gardener.py:324-329 | none exactly when no option name contains the target; otherwise the first option, in dict order, whose name contains it |
| Priority.RunPriorityRules | scripts/project_gardener.py:294-338 | the step threading `target_priority` and `force_update` issues exactly the commands of the priority decision |
| Priority.OptionsImplyField | scripts/project_gardener.py:208 | an option found among the Priority options implies the Priority field exists |
| Priority.PriorityDecisionSpec | scripts/project_gardener.py:311-338 | every write names the first option containing the target, with a truthy id; it is forced exactly when a label forces, and then the current value differs from the target; a derived write happens only on an open item with no Priority key, with the derived target; no forced target and a Priority key means no write |
| Priority.ForcedOverridesCurrent | scripts/project_gardener.py:331-337 | a forced target whose option exists is written whenever the current value is not exactly the target |
| Priority.DerivedFillsGap | scripts/project_gardener.py:311-337 | an open item with no forced target and no Priority key gets the derived target written when its option exists |
| Gardener.GardenItem | scripts/project_gardener.py:218-355 | one item's loop body records the content id it sees, issues the item's Status, Priority and dispatch commands in that order, and reports staleness; an item without content issues nothing |
| Gardener.Garden | scripts/project_gardener.py:215-355 | the item loop collects exactly the seen ids, issues every item's commands in item order, and lists the stale items in order |
| Gardener.SeenIdsIff | scripts/project_gardener.py:219-224 | an id is on the board exactly when some item with content carries it as a non-empty id |
| Gardener.WritesTargetItemsWithContent | scripts/project_gardener.py:217-220 | every field write targets an item of the board that has content |
| Gardener.DryRunGardenSilent | scripts/project_gardener.py:133-135 | under dry run the item loop issues no command |
| Gardener.ItemWritesBounded | scripts/project_gardener.py:246-355 | per item and pass, at most one Status write, at most one Priority write and at most one dispatch |
| Gardener.ReconcileIdempotent | scripts/project_gardener.py:245-338 | once one pass's field writes have landed, with the item's content unchanged, a second pass decides no Status and no Priority write, given a Status that is not "" and exact forced option names |
| Gardener.SettledPassIssuesNothing | scripts/project_gardener.py:245-355 | with the field writes landed, the content unchanged and no ai-pending label, the second pass issues no Status write, no Priority write and no dispatch, given a Status that is not "" and exact forced option names |
| Gardener.StatusSettles | scripts/project_gardener.py:245-290 | provided the Status before the pass is not the empty string: once the chosen Status option's name is the current Status, no Status rule fires |
| Gardener.PrioritySettles | scripts/project_gardener.py:310-338 | provided a forced target's first matching option is named exactly "P0" or "P1": once the chosen Priority option's name is the current Priority, neither a forced nor a derived write is decided |
| Gardener.ForcedRewriteWithDecoratedOption | scripts/project_gardener.py:325-334 | with an option "P0 - Critical" already set, a "critical" label still forces a write of that same option |
| Gardener.SwapAiLabels | scripts/project_gardener.py:384 | after the swap the labels hold "ai-assigned" and not "ai-pending" |
| Gardener.RemoveAll | scripts/project_gardener.py:384 | `--remove-label` keeps exactly the other labels |
| Gardener.DispatchThenProgress | scripts/project_gardener.py:260-355 | an open, untyped issue labelled ai-pending and not ai-assigned is dispatched; once this pass's field writes and the label swap have landed, the next pass moves it to "In Progress" by rule 2a |
| Sweeper.Sweep | scripts/project_gardener.py:357-366 | the repository/item loop finds exactly the orphans and issues their enrol commands |
| Sweeper.RepoOrphansExact | scripts/project_gardener.py:363-366 | an id is an orphan of a repository exactly when that repository lists it and it is not on the board |
| Sweeper.OrphansExact | scripts/project_gardener.py:360-366 | an id is enrolled exactly when some repository lists it and it is not on the board |
| Sweeper.EnrollCommandsSpec | scripts/project_gardener.py:364-366 | outside dry run, one enrol command per orphan, in order; under dry run, none |
| Reconciler.Run | scripts/project_gardener.py:193-366 | no project id: nothing happens; a failing catalog: the run stops; otherwise the item commands followed by the enrol commands of the orphans against the complete seen set |
| Reconciler.DryRunIssuesNothing | scripts/project_gardener.py:193-366 | a dry run issues no command at all |
| Reconciler.EnrolledExactlyOffBoard | scripts/project_gardener.py:215-366 | an open item is enrolled exactly when no board item with content carries its id |
| Compliance.CollectMatched | scripts/fix_compliance.py:58-64 | the defaults plus the tags of every map key that occurs in the lower-cased name |
| Compliance.AddSpecialTopics | scripts/fix_compliance.py:67-68 | the two exact-name additions |
| Compliance.ListOf | scripts/fix_compliance.py:70 | the list holds each element of the set exactly once |
| Compliance.GetTopicsForRepo | scripts/fix_compliance.py:56-70 | the returned list holds exactly the suggested topics, each once |
| Compliance.MatchedTagsIff | scripts/fix_compliance.py:62-64 | a tag is matched exactly when some key occurring in the name carries it |
| Compliance.TopicSetExact | scripts/fix_compliance.py:56-70 | a topic is suggested exactly when it is "atnplex", a tag of a key occurring in the lower-cased name, or a special topic of that exact name |
| Compliance.SpecialTopicsIff | scripts/fix_compliance.py:67-68 | only "infrastructure" gains devops/management, and only ".github" gains configuration/governance |
| Compliance.TopicsCoverMatches | scripts/fix_compliance.py:58-64 | "atnplex" and every tag of every matched key are suggested |
| Compliance.TopicFlags | scripts/fix_compliance.py:93-94 | two arguments per topic |
| Compliance.BuildTopicCommand | scripts/fix_compliance.py:92-94 | the extended command is exactly the edit command with one `--add-topic` per topic |
| Compliance.TopicFlagsSpec | scripts/fix_compliance.py:93-94 | each topic sits right after its own `--add-topic`, in list order |
| Compliance.GenerateDescription | scripts/fix_compliance.py:100-103 | the generated description is truthy, and names the repository unless it is `.github` |
| Compliance.DefaultDescription | scripts/fix_compliance.py:102-103 | the description text is never empty and contains the repository name except for `.github` |
| Compliance.RemediateRepo | scripts/fix_compliance.py:79-108 | topics are suggested exactly when the repository has none, and they list the suggested set; a description is generated exactly when the current one is falsy; the edits are the topic edit then the description edit, none in dry run |
| Compliance.Remediate | scripts/fix_compliance.py:78-108 | every repository in turn, each with its suggested topic list, edits in repository order |
| Compliance.DryRunEditsNothing | scripts/fix_compliance.py:90-108 | under dry run no edit is issued |
| Compliance.EditsOnlyFillGaps | scripts/fix_compliance.py:86-108 | topics are added only to a repository without topics, with its suggested topics; a description only where it is falsy, with the generated text |
| Compliance.RemediationSettles | scripts/fix_compliance.py:78-108 | once a run's topic and description edits have landed, the repository has topics and a truthy description, so a second run issues no edit |
| Audit.RepoFlags | scripts/audit_repos.py:60-66 | has topics exactly when the topic list is non-empty, has a description exactly when it is truthy, has a README exactly when the probe says so |
| Audit.PassedChecks | scripts/audit_repos.py:69-73 | the checks a repository passes |
| Audit.Score | scripts/audit_repos.py:69-73 | the score is the number of passed checks, at most 3, exactly 3 when fully compliant, 0 exactly when no check passes |
| Audit.AuditRepos | scripts/audit_repos.py:56-89 | one report row per repository, in order, with its flags; the compliance score is the count of fully compliant repositories and never exceeds the total |
| Audit.CompliantCountBounds | scripts/audit_repos.py:82 | the count is at most the number of repositories, and equal to it exactly when all are fully compliant |
| Audit.CompliantCountIsIndexCount | scripts/audit_repos.py:82 | the count is the number of fully compliant repositories |
| Audit.RowStatus | scripts/audit_repos.py:101 | the check mark exactly for a fully compliant row, the warning sign otherwise |
| Audit.Columns | scripts/audit_repos.py:101-102 | the four icon columns: a check column shows the check mark when the check passes and the cross otherwise; the last column is the status |
| Audit.StatusAgreesWithColumns | scripts/audit_repos.py:101-102 | the status shows the check mark exactly when all three check columns do, never the cross, and the warning sign whenever a check column shows the cross |
| Audit.StatusMatchesCount | scripts/audit_repos.py:82-101 | the rows showing the check mark are exactly those counted in the compliance score |
| Audit.Percentage | scripts/audit_repos.py:97 | 0 without repositories; at most 100; exactly 100 when every repository is fully compliant |
| Audit.PercentageBound | scripts/audit_repos.py:97 | the integer percentage is at most 100, and 100 exactly when score equals total |
| Scenarios.StaleIsAdvisoryOnly | scripts/project_gardener.py:340-345 | a 40-day-old open item in Todo is reported stale and gets no write |
| Scenarios.MissingContentSkipped | scripts/project_gardener.py:219-220 | an item without content issues nothing, records no id and is not stale |
| Scenarios.SweeperFindsOnlyC | scripts/project_gardener.py:357-366 | board {A, B} and open {A, B, C}: only C is enrolled; with C on the board, none |
| Scenarios.ClosedBeatsAiAssigned | scripts/project_gardener.py:250-266 | a closed ai-assigned item gets only the "Done" write |
| Scenarios.ForcedP0ReplacesP2 | scripts/project_gardener.py:298-337 | a "p0-urgent" label replaces a current P2 with P0 |
| Scenarios.EnhancementNotForced | scripts/project_gardener.py:298-308 | "enhancement" forces nothing |
| Scenarios.DerivedKeepsExisting | scripts/project_gardener.py:311 | a derived target does not touch an existing Priority |
| Scenarios.ChoreDerivesDefault | scripts/project_gardener.py:311-319 | "chore" forces nothing and derives P2 |
| Scenarios.ChoreMatchesNoKey | scripts/project_gardener.py:314-317 | "chore" contains no map key |
| Scenarios.P2Option | scripts/project_gardener.py:324-329 | target P2 selects the option "P2" |
| Scenarios.UnmatchedLabelGetsDefault | scripts/project_gardener.py:311-337 | an open item with no Priority and only a "chore" label gets P2 written |

## Left out

- The GitHub CLI and GraphQL calls (`run_command`, the fetch functions, `check_file_exists`) are not modelled. Their results are inputs: the project and its fields, the items, the repositories' open items, the repository listings, and the README probe. Their failure paths are not modelled either; a failed fetch shows up as an empty input.
- Pagination and the fixed page sizes of the queries (20 fields, 100 items, 1000 repositories) are not modelled; the inputs are whatever the queries returned.
- The clock is not modelled: `now` is a parameter. Timestamps are whole seconds since an epoch, so ISO-8601 parsing and time zones are out of scope.
- Console output and the markdown file the audit writes are not modelled. Only the status column and the percentage are.
- Text.Lower: lower-cases ASCII letters only, because Unicode case mapping is not modelled.
- Compliance.ListOf: the order in which Python lists a set is unspecified, so the model lets the list take any order of the set's elements.
- Audit.Percentage: computes the exact integer floor of score * 100 / total. The source computes `int(score / total * 100)` in floating point, which can land one lower (29 of 100 gives 28.999… and so 28); floating point is not modelled.
- Gardener.ReconcileIdempotent: proved only when Status is not the empty string and each forced target's option is named exactly "P0" or "P1". The source does not settle in one pass outside those cases. It covers the Status and Priority writes only, over unchanged content: the ai-pending dispatch and its label swap are outside it, since the dispatch repeats while the label stays and, once the swap lands, a further "In Progress" write follows (Gardener.DispatchThenProgress).
- Gardener.SettledPassIssuesNothing: proved only for content without the ai-pending label, under the same two exclusions.
- Gardener.StatusSettles: proved only when the Status before the pass is not the empty string. An empty-string Status is written "Todo" by rule 4, and the next pass can move an assigned issue on to "In Progress" by rule 3.
- Gardener.PrioritySettles: proved only when each forced target's first matching option is named exactly "P0" or "P1". With a decorated name such as "P0 - Critical" the forced write repeats on every pass (Gardener.ForcedRewriteWithDecoratedOption).
- Gardener.DispatchThenProgress: stated for an untyped item without the ai-assigned label. If the item is already ai-assigned, or is a typed assigned issue, the first pass already writes "In Progress" and the next pass writes nothing.
- The staleness advisory is a report, not a write; it is modelled as the list of stale item ids.
- The other scripts of the repository (the AI worker, workflow deployment, the MCP and secret tooling, the PHP files) are not part of this model.
