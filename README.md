# Team formation and TSV validation, modelled in Dafny

This project models the back end of a small web service that forms student
project teams. Teams are read from the rows of a survey form. Each row lists
the GitHub logins of a team and the team's ranked project preferences.
`TeamProcessor` processes those rows in five passes:

- It collects every student login.
- It classifies each team as valid (five members, at least 25 preferences),
  invalid (too few members, or five members with fewer preferences) or
  dissolved (more than five members, whose students go to the unassigned pool).
- It tops up short teams with random students from the pool, and forms extra
  teams of five from what remains.
- It sorts the valid teams by submission time and gives each the first
  preferred project no earlier team took. The invalid and extra teams get the
  remaining projects in random order, or a random project once those run out.
- It reports every team with its project, or `random`.

The second core is `validate_tsv`, a checker for a seven-column tab-separated
file. It normalises line endings and skips a header row whose first cell is
not a number. Then it checks the number, date-time and e-mail cells of every
non-blank row in column order, and reports counts and the first failing cell
of each bad row.

The files are:

- `wrappers.dfy`: `Option`.
- `collections.dfy`: distinct sequences, enumerations of a set (how `list(set)`
  and `random.shuffle` are modelled), samples (`random.sample`), filter and
  flatten.
- `text.dfy`: Python's `strip`, whitespace collapsing (`re.sub(r'\s+', ' ', …)`),
  `split(',')` and `re.split(r'[,\s\t]+', …)`.
- `teams.dfy`: the team record, row parsing and the classification pass.
- `completion.dfy`: the fill pass, chunking into teams of five, and the
  trickle of the last students.
- `allocation.dfy`: the stable time sort, the project catalog, the
  preferred allocation and the fallback.
- `processor.dfy`: the class `TeamProcessor`. Its fields are the lists and
  sets of the Python object, and each pass is a method that changes them.
- `tsv_validator.dfy`: `validate_tsv` and its result objects.

Randomness is a choice. A method picks any value allowed by the library call
it stands for (`:|`), and it returns that choice as a ghost out-parameter, so
that the contracts can name it.

## Model

| member | source | states |
|---|---|---|
| Processor.TeamProcessor.constructor | be/processor.py:7-14 | every collection starts empty, and the object's invariant holds |
| Processor.TeamProcessor.ProcessTeams | be/processor.py:16-32 | the students seen grow by exactly the logins of the rows. The buckets after all passes are the classification, fill, chunking and allocation of the parsed rows, for the random choices it returns. The valid teams stay full with all preferences, the invalid teams stay within size, and the extra teams have exactly five members. If the catalog has at least one project per team and no valid team from an earlier call holds a project (always true for a new processor), no project is given to two teams. The result reports every team and lists the unassigned students once each |
| Processor.TeamProcessor.ReadRows | be/processor.py:18-21 | the student set grows by the rows' logins, the buckets are the classification of the parsed rows, and the bucket invariants are kept |
| Processor.TeamProcessor.CompleteTeams | be/processor.py:24-27 | the invalid teams are the fill pass on the old invalid teams and pool. The extra teams are the old ones followed by the chunks of five of an enumeration of the leftover pool. Fewer than five students stay unassigned. The second forming pass changes nothing |
| Processor.TeamProcessor.CollectStudentsInfo | be/processor.py:34-41 | the student set becomes the old set plus the normalised non-empty logins of every row |
| Processor.TeamProcessor.CollectLogins | be/processor.py:35-41 | the loop over all rows yields the known set plus every row's logins |
| Processor.TeamProcessor.AddLogins | be/processor.py:38-41 | adding one row's comma-split pieces gives the known set plus those pieces that are non-empty after normalising |
| Processor.TeamProcessor.ProcessTeamData | be/processor.py:43-64 | the valid list, invalid list and pool become the row-by-row classification of the parsed rows, starting from their old values |
| Processor.TeamProcessor.ClassifyRows | be/processor.py:44-64 | the loop result equals the classification of the parsed rows |
| Processor.TeamProcessor.ClassifyTeam | be/processor.py:48-64 | one row's four-way branch goes to the pool, the flagged invalid list, the valid list or the invalid list |
| Processor.TeamProcessor.FillIncompleteTeams | be/processor.py:101-115 | the draws are possible samples. The invalid teams are the fill pass followed by the trickle of the leftover, the extra teams gain the chunks of five, and the pool becomes the leftover students |
| Processor.TeamProcessor.FillPass | be/processor.py:103-112 | the loop over the invalid teams equals the fill specification for the samples it returns, and every sample is one the library could draw |
| Processor.TeamProcessor.FillOne | be/processor.py:104-112 | a flagged team with a non-empty pool gets min(needed, pool size) distinct pool students, which leave the pool. Any other team and the pool are unchanged |
| Processor.TeamProcessor.FormTeamsFromUnassigned | be/processor.py:117-140 | some enumeration of the pool is cut into teams of five, which are appended to the extra teams. The leftover trickles into flagged teams and becomes the new pool |
| Processor.TeamProcessor.CutTeams | be/processor.py:120-128 | the loop appends the chunks of five and leaves fewer than five students |
| Processor.TeamProcessor.TrickleLeftover | be/processor.py:131-137 | each leftover student joins the first flagged team, which is unflagged once it reaches five |
| Processor.TeamProcessor.DistributeProjects | be/processor.py:142-174 | the valid teams are sorted by time with their preferred picks applied. The remaining projects are an enumeration of the catalog minus the taken ones. The invalid and extra teams keep everything but their project and receive the fallback assignment |
| Processor.TeamProcessor.Distribute | be/processor.py:142-174 | the same on values: the three new lists are related to the old ones by the allocation specification |
| Processor.TeamProcessor.BuildCatalog | be/processor.py:147-153 | the catalog is the union of every team's preferences, or "1"…"25" when that union is empty |
| Processor.TeamProcessor.PrepareResult | be/processor.py:176-204 | every valid and invalid team is reported with its members, project (or `random`) and time; extra teams without a time; the unassigned students once each |
| Processor.Report | be/processor.py:184-196 | defines the report of a valid or invalid team: its members, its project or `random` when it has none, and its time |
| Processor.UntimedReport | be/processor.py:198-202 | defines the report of an extra team: its members and its project or `random`, with no time |
| Processor.Reports | be/processor.py:184-196 | one report per team, in list order |
| Processor.UntimedReports | be/processor.py:198-202 | one report without a time per extra team, in list order |
| Processor.Completed | be/processor.py:24-27 | defines the state after the completion passes: every draw is a possible sample, the invalid teams are the filled teams, the extra teams gain the chunks of five of an enumeration of the pool left by the fill, and the pool becomes the fewer than five leftover students |
| Processor.Distributed | be/processor.py:142-174 | defines the state after allocation: the valid teams are sorted and carry their preferred picks, the remaining projects enumerate the catalog minus the taken ones, and the invalid then extra teams get the fallback assignment and keep their number |
| Processor.Processed | be/processor.py:16-32 | defines the whole pipeline: classification of the parsed rows, then `Completed`, then `Distributed`, and pairwise distinct projects when the old valid teams had none and the catalog has one project per team |
| Processor.ReportShape | be/processor.py:184-202 | a report keeps the members, shows the assigned project or `random` exactly when there is none, and an extra team's report has no time |
| Processor.AllocatedValidOk | be/processor.py:144-163 | sorting and assigning projects keeps every valid team full with all preferences listed |
| Processor.FallbackKeepsShape | be/processor.py:169-174 | the fallback changes only projects, so the invalid teams stay within size and the extra teams stay teams of five |
| Processor.ClassifiedUnassigned | be/processor.py:43-64 | classification never assigns a project, so the sorted valid teams all start unassigned |
| Processor.PassesCompose | be/processor.py:16-32 | the passes, each meeting its own contract, compose to the whole pipeline's specification, and the shape invariants hold at the end |
| Processor.ComposedShape | be/processor.py:16-32 | after all passes the valid teams are valid, the invalid teams are within size, and the extra teams have five members |
| Processor.ComposedUnique | be/processor.py:142-174 | when the catalog has a project for every team and no valid team from an earlier call holds a project (always true for a new processor), the final assignments are pairwise distinct |
| Teams.ParseRow | be/processor.py:66-99 | defines the parsed team: the normalised non-empty logins, the project tokens, the flag "at least 25 tokens", the parsed time or the minimum time, unflagged and without a project |
| Teams.ParseRows | be/processor.py:44-45 | one parsed team per row, in row order |
| Teams.MarkShort | be/processor.py:55-57 | defines the flagging of a team with fewer than five members |
| Teams.ClassifyRow | be/processor.py:48-64 | defines one turn of the loop: an oversized team goes to the pool, a short one is flagged and goes to the invalid list, a full one with all preferences goes to the valid list, any other to the invalid list |
| Teams.Classify | be/processor.py:44-64 | defines the loop as one `ClassifyRow` per parsed row, in row order |
| Teams.ClassifySpec | be/processor.py:43-64 | the reference the loop is proved equal to: the old lists extended by the valid rows and by the marked invalid rows, each filtered in order, and the pool extended by the oversized rows' members |
| Teams.Get | be/processor.py:68 | a missing key reads as the empty string |
| Teams.SubmissionTime | be/processor.py:87-91 | a time that parses is kept; one that does not becomes the minimum time |
| Teams.ParseRowShape | be/processor.py:66-99 | members are non-empty normalised logins without commas, project tokens are non-empty and free of commas and whitespace, the completeness flag means at least 25 tokens, the row has a time, and the team starts unflagged and unassigned |
| Teams.ParseTeamRow | be/processor.py:66-99 | the parsing method with its loops agrees with the row specification |
| Teams.MarkAll | be/processor.py:55-57 | each team becomes `MarkShort` of itself, so for unflagged teams (see `ParseRowsFresh`) a team is flagged exactly when it is short |
| Teams.OversizedMembers | be/processor.py:50-53 | defines the logins that oversized teams add to the pool; `OversizedMembersIn` states its membership |
| Teams.OversizedMembersIn | be/processor.py:50-53 | a student is in the oversized pool exactly when some team with more than five members lists them |
| Teams.ClassifySpecStep | be/processor.py:48-64 | one row of the loop extends the filter specification by that row |
| Teams.ClassifyIsFilter | be/processor.py:43-64 | the loop adds the valid rows, in order, to the valid list. It adds the invalid rows, in order and flagged when short, to the invalid list, and the oversized rows' members to the pool |
| Teams.ClassifyCounts | be/processor.py:43-64 | every row with at most five members is kept in exactly one list, and the kept rows plus the oversized rows are all the rows |
| Teams.ClassifyShape | be/processor.py:43-64 | a valid team is full with all preferences and comes from the old list or the rows. A team is flagged exactly when it is short. A full invalid team lacks preferences or was there before. Every oversized team's members are in the pool |
| Teams.ClassifyKeepsShape | be/processor.py:43-64 | the valid list stays valid and the invalid list stays within size with only short teams flagged |
| Teams.ClassifyPrefixStep | be/processor.py:44-45 | the classification of one more row is one more step of the loop |
| Teams.LoginLists | be/processor.py:36-41 | defines the login list of each row, one per row |
| Teams.StudentsOf | be/processor.py:34-41 | defines the set `_collect_students_info` adds: every normalised non-empty login of every row; `StudentsOfMembers` states its membership |
| Teams.StudentsOfMembers | be/processor.py:34-41 | the collected students are exactly the members of the parsed rows |
| Teams.ParseRowsFresh | be/processor.py:93-99 | every parsed team is unflagged, unassigned and has a time |
| Text.LStrip | be/processor.py:39 | defines `lstrip()` by dropping leading whitespace characters one at a time |
| Text.RStrip | be/processor.py:39 | defines `rstrip()` by dropping trailing whitespace characters one at a time |
| Text.Strip | be/processor.py:39 | defines `strip()` as `rstrip()` after `lstrip()` |
| Text.Normalize | be/processor.py:39 | defines the normalisation `re.sub(r'\s+', ' ', x.strip())` |
| Text.StripShape | be/processor.py:39 | `strip` leaves no whitespace at either end and only removes characters, and it gives "" exactly for an all-whitespace string |
| Text.LStripShape | be/processor.py:39 | `lstrip` removes exactly the leading whitespace run |
| Text.RStripShape | be/processor.py:39 | `rstrip` removes exactly the trailing whitespace run |
| Text.SkipSpaceRun | be/processor.py:39 | dropping a leading whitespace run shortens the string and keeps its last non-space character |
| Text.Collapse | be/processor.py:39 | whitespace runs become single spaces: the result has no other whitespace, is no longer than the input, is empty only for empty input, and starts with the input's first character (or a space when that is whitespace) |
| Text.CollapseChars | be/processor.py:39 | the collapse adds no character but the space, and keeps a last character that is not whitespace |
| Text.CollapseAddsOnlySpace | be/processor.py:39 | every character of the collapse is a character of the input or a space |
| Text.CollapseKeepsLast | be/processor.py:39 | an input ending in a non-whitespace character keeps it as the collapse's last character |
| Text.Words | be/processor.py:39 | `s.split()`: the maximal runs of non-whitespace characters, each non-empty and free of whitespace, and at least one when the text starts with a non-space |
| Text.JoinSpace | be/processor.py:39 | defines `' '.join(ws)` |
| Text.WordsLStrip | be/processor.py:39 | leading whitespace holds no word |
| Text.WordsRStrip | be/processor.py:39 | trailing whitespace holds no word |
| Text.CollapseKeepsWords | be/processor.py:39 | the collapse keeps every word, in order, and changes only the whitespace between them |
| Text.NormalIsJoinedWords | be/processor.py:71 | a normal string is its words joined by single spaces |
| Text.NormalizeIsJoinedWords | be/processor.py:71 | the normalisation equals `' '.join(s.split())`: the words of the input, in order, one space apart, so "  John   Smith " becomes "John Smith" |
| Text.NormalizeShape | be/processor.py:71 | a normalised login has single inner spaces and none at its ends, is "" exactly for all-whitespace input, and adds no character but the space |
| Text.CollapseFixed | be/processor.py:71 | collapsing a string that is already collapsed changes nothing |
| Text.NormalFixed | be/processor.py:81 | normalising a normal string changes nothing |
| Text.NormalizeIdempotent | be/processor.py:81 | normalising twice is normalising once |
| Text.SplitComma | be/processor.py:68 | `split(',')` yields at least one piece and no piece holds a comma |
| Text.JoinSplitComma | be/processor.py:68 | joining the pieces with commas gives back the field |
| Text.SplitJoinComma | be/processor.py:68 | splitting a comma join of comma-free pieces gives back the pieces |
| Text.SplitSeps | be/processor.py:80 | `re.split` on separator runs yields at least one piece, none holding a comma or whitespace |
| Text.SplitSepsCovers | be/processor.py:80 | the pieces together are the field with every separator removed |
| Text.FlattenNonEmpty | be/processor.py:81 | dropping empty pieces loses no character and keeps only pieces of the input |
| Text.CleanTokens | be/processor.py:81 | defines the list comprehension: each piece whose strip is non-empty, normalised, in order |
| Text.ProjectTokens | be/processor.py:76-81 | defines the token list: empty for an empty field, otherwise the cleaned pieces of the separator split |
| Text.ProjectTokensShape | be/processor.py:76-81 | every project token is non-empty, separator-free and already normal, and the tokens together are the field without its separators |
| Text.NormalizedNonEmpty | be/processor.py:69-73 | defines the login loop: each comma piece normalised, the empty ones dropped, in order |
| Text.Logins | be/processor.py:68-73 | defines the members of a row: the normalised non-empty pieces of the comma split |
| Text.NormalizedNonEmptyShape | be/processor.py:69-73 | the members are at most as many as the pieces, and each is a non-empty normal comma-free normalisation of a piece |
| Text.LoginsShape | be/processor.py:68-73 | every member is a non-empty normal login without a comma |
| Text.NormalizedNonEmptyStep | be/processor.py:38-41 | one more piece adds its normalisation to the set exactly when that is non-empty |
| Completion.Draws | be/processor.py:104-106 | defines when a team draws: it is flagged, it needs students and the pool is not empty |
| Completion.PickOk | be/processor.py:107-108 | defines the possible draws: a sample of min(needed, pool size) pool students when the team draws, nothing otherwise |
| Completion.FillTeam | be/processor.py:109-112 | defines a team after its draw: the sample appended and the flag recomputed when it draws, unchanged otherwise |
| Completion.FillPool | be/processor.py:110-111 | defines the pool after a draw: without the sample when the team draws, unchanged otherwise |
| Completion.Fill | be/processor.py:103-112 | defines the loop over the invalid teams in order, threading the pool through the draws; one team out for each team in |
| Completion.FillOk | be/processor.py:103-108 | defines that every draw of the loop is possible for the pool the earlier teams left |
| Completion.Shortfall | be/processor.py:104-105 | defines the total number of students the flagged teams lack |
| Completion.FillTeamShape | be/processor.py:104-112 | a drawing team gets min(needed, pool size) pool students appended, its flag recomputed and nothing else changed, and the pool loses exactly them. A team that does not draw is left alone |
| Completion.FillExtend | be/processor.py:103-112 | the fill pass over one more team is one more loop step, and its draws stay possible |
| Completion.FillAt | be/processor.py:103-112 | each team after the pass is that team filled from the pool as the earlier teams left it |
| Completion.FillOkAt | be/processor.py:108 | each draw is a possible sample of the pool the earlier teams left |
| Completion.FillPartitionsPool | be/processor.py:103-112 | the drawn students are distinct, and together with the final pool they are exactly the old pool |
| Completion.PartitionStep | be/processor.py:110-111 | removing one sample keeps the drawn students and the pool a partition of the old pool |
| Completion.FillLeavesNoFlagWithPool | be/processor.py:103-112 | teams stay within size, the pool only shrinks, and if any student is left then no team still needs students |
| Completion.FillSufficient | be/processor.py:103-112 | a pool that covers the total shortfall fills every flagged team to five and shrinks by exactly the shortfall |
| Completion.Chunks | be/processor.py:120-128 | defines the formed teams: the first five students, again and again, while five remain |
| Completion.Leftover | be/processor.py:120-128 | defines the students left when fewer than five remain |
| Completion.OtherTeam | be/processor.py:122-127 | defines a formed team: the five students, no preferences, not complete, not flagged, no time |
| Completion.ChunksShape | be/processor.py:119-128 | there are size/5 chunks of five, size mod 5 leftover students, and chunks then leftover spell the list |
| Completion.ChunksPartitionPool | be/processor.py:119-140 | an enumeration of the pool splits into full teams and fewer than five distinct leftover students, together exactly the pool |
| Completion.ChunksStep | be/processor.py:120-128 | one turn of the loop takes the first five students as a team |
| Completion.OtherTeams | be/processor.py:122-127 | each formed team has the chunk as members, no preferences, no time and no flag |
| Completion.FirstFlagged | be/processor.py:132-133 | the first flagged team, or none when no team is flagged |
| Completion.FirstFlaggedAt | be/processor.py:132-137 | the first flagged index is the one before which no team is flagged |
| Completion.AddStudent | be/processor.py:134-136 | defines a team gaining one student, unflagged once it has five |
| Completion.Absorb | be/processor.py:132-137 | defines one leftover student going to the first flagged team; the team count is kept |
| Completion.Trickle | be/processor.py:131-137 | defines the outer loop: the leftover students absorbed one by one, in list order; the team count is kept |
| Completion.AbsorbShape | be/processor.py:131-137 | a student joins only the first flagged team, which is unflagged exactly when it reaches five; with no flagged team nothing changes |
| Completion.TrickleStep | be/processor.py:131-137 | the trickle of one more student is one more absorb step |
| Completion.TrickleWellFlagged | be/processor.py:131-137 | the trickle keeps teams within size with only short teams flagged |
| Completion.TrickleNoFlagged | be/processor.py:131-137 | with no flagged team the trickle changes nothing |
| Completion.TrickleNeverFires | be/processor.py:115 | after the fill pass, both forming passes leave every invalid team as it is, and the second one forms no team |
| Allocation.Key | be/processor.py:144 | defines the sort key: the submission time |
| Allocation.Insert | be/processor.py:144 | defines insertion before the first team that is not earlier; the result has one more team |
| Allocation.SortByTime | be/processor.py:144 | defines the sort as insertion sort; the result has as many teams as the input |
| Allocation.SortByTimeSorted | be/processor.py:144 | the sort is ordered by submission time and is a permutation |
| Allocation.SortByTimeStable | be/processor.py:144 | teams with equal times keep their relative order, as Python's sort guarantees |
| Allocation.SortByTimeMembers | be/processor.py:144 | every sorted team is one of the input teams |
| Allocation.InsertPerm | be/processor.py:144 | one insertion adds exactly that team |
| Allocation.InsertSorted | be/processor.py:144 | inserting into a sorted list keeps it sorted |
| Allocation.InsertWithKey | be/processor.py:144 | an insertion keeps the order among teams of one time |
| Allocation.ProjectsOf | be/processor.py:147-149 | defines the union of every team's preferences |
| Allocation.Catalog | be/processor.py:147-153 | defines the catalog: that union, or "1" to "25" when it is empty |
| Allocation.ProjectsOfIn | be/processor.py:147-149 | a project is collected exactly when some team lists it |
| Allocation.CollectProjects | be/processor.py:147-149 | the collecting loop yields exactly the projects some team lists |
| Allocation.CatalogCovers | be/processor.py:147-153 | the catalog is never empty and holds every listed project |
| Allocation.CatalogDefault | be/processor.py:151-153 | the default catalog is used exactly when no team lists any project |
| Allocation.DefaultCatalogNonEmpty | be/processor.py:153 | the default catalog has at least one project |
| Allocation.Taken | be/processor.py:155-162 | defines the set of projects picked so far |
| Allocation.ValidPicks | be/processor.py:158-163 | defines the loop over the sorted valid teams: each picks its first free preference given the earlier picks; one pick for each team |
| Allocation.FirstFree | be/processor.py:159-163 | the pick is the earliest preference that is in the catalog and not yet taken, or none when every preference is unavailable |
| Allocation.FindFree | be/processor.py:159-163 | the inner loop finds that first free preference |
| Allocation.ApplyPicks | be/processor.py:158-163 | defines the write `team['assigned_project'] = project`: each team takes its pick when there is one and keeps its old project otherwise. What the allocation promises about the picks is proved in `PickIsFirstFree`, `ValidAllocationDistinct` and `DistributionUnique` |
| Allocation.PickIsFirstFree | be/processor.py:158-163 | each team's pick is its first free preference given the earlier teams' picks |
| Allocation.ValidPicksPrefix | be/processor.py:158 | the picks of a prefix of the teams are the prefix of the picks |
| Allocation.PicksStep | be/processor.py:158-163 | one more team adds its first free preference |
| Allocation.TakenIn | be/processor.py:162 | a project is taken exactly when some pick is it |
| Allocation.TakenSize | be/processor.py:162 | at most one project is taken per team |
| Allocation.TakenStep | be/processor.py:162 | one more pick adds that project to the taken set |
| Allocation.AllocationStep | be/processor.py:158-163 | one more team adds its pick to the taken set and its allocated self to the output |
| Allocation.ValidPicksDistinct | be/processor.py:158-163 | no project is picked twice |
| Allocation.ValidAllocationDistinct | be/processor.py:155-163 | unassigned teams end with distinct catalog projects, each of them taken, and every taken project is held by some team |
| Allocation.AllocatePreferred | be/processor.py:155-163 | the loop's teams and taken set are the preferred-allocation specification |
| Allocation.FallbackAssigned | be/processor.py:166-174 | defines the fallback: each later team keeps all but its project, the i-th gets the i-th remaining project while they last, and a catalog project after that |
| Allocation.AssignFallback | be/processor.py:166-174 | each later team keeps everything but its project. The i-th one gets the i-th remaining project while they last and a catalog project after that |
| Allocation.FallbackUnique | be/processor.py:166-172 | remaining projects given one per team, after distinct preferred picks, keep all assignments distinct |
| Allocation.CatalogSufficient | be/processor.py:166-172 | a catalog with a project for every team leaves enough remaining projects for every later team |
| Allocation.DistributionUnique | be/processor.py:142-174 | with a project for every team and no sorted valid team already holding a project (always true for a new processor), the preferred picks and the fallback together give pairwise distinct projects and leave no later team without one |
| Collections.SampleExists | be/processor.py:108 | a sample of any size up to the pool's exists, so the draw can always be made |
| Collections.EnumerationExists | be/processor.py:119 | every set has an enumeration, so `list(set)` can always be modelled |
| Collections.DistinctCard | be/processor.py:111 | a distinct list has as many elements as its set |
| Collections.FilterSplitCount | be/processor.py:55-64 | the elements that satisfy a test and those that do not are all the elements |
| Collections.UnionOfIn | be/processor.py:35-41 | an element is in the union exactly when some list holds it |
| TsvValidator.ValidationResult.AsDict | be/tsv_validator.py:50-59 | the dictionary copies every field and the schema and converts each error. It raises `AttributeError` exactly when some error is already a dict |
| TsvValidator.ErrorDicts | be/tsv_validator.py:58 | the error list converts element-wise, and it raises `AttributeError` exactly when some error is already a dict |
| TsvValidator.ReplaceCrLf | be/tsv_validator.py:90 | defines `replace("\r\n", "\n")`, scanning left to right |
| TsvValidator.ReplaceCr | be/tsv_validator.py:90 | defines `replace("\r", "\n")` |
| TsvValidator.NormalizeNewlines | be/tsv_validator.py:90 | defines the two chained replacements |
| TsvValidator.NewlinesOnePass | be/tsv_validator.py:90 | the reference reading: each CRLF and each lone CR becomes one LF, in one pass |
| TsvValidator.NormalizeNewlinesShape | be/tsv_validator.py:90 | after the two replacements no carriage return is left. The replacements equal the one-pass reading (CRLF and lone CR each become one LF), leave CR-free text alone and are idempotent |
| TsvValidator.NormalizeNewlinesOnePass | be/tsv_validator.py:90 | the two chained replacements equal the one-pass reading |
| TsvValidator.OnePassNoCr | be/tsv_validator.py:90 | the one-pass reading leaves no carriage return |
| TsvValidator.OnePassNoCrFixed | be/tsv_validator.py:90 | text without carriage returns is unchanged |
| TsvValidator.IsBlank | be/tsv_validator.py:119 | defines a blank row: no cells, or one cell that strips to "" |
| TsvValidator.RowVerdict | be/tsv_validator.py:119-136 | defines one turn of the loop: blank, good, the first failing check from column 1 to 3, or `IndexError` for a short row whose earlier checks pass |
| TsvValidator.Step | be/tsv_validator.py:120-136 | defines the counters after one verdict: a blank row is skipped, a good row counts as valid, a bad row adds its error, a raising row stops the loop |
| TsvValidator.Scan | be/tsv_validator.py:118-136 | defines the loop over the data rows in order, line numbers from the first data line |
| TsvValidator.CountVerdicts | be/tsv_validator.py:118-136 | defines the number of data rows with a given kind of verdict |
| TsvValidator.RowVerdictError | be/tsv_validator.py:124-134 | a row error names the row's line and a column the row has, and carries that cell unstripped |
| TsvValidator.RowVerdictFirstFailure | be/tsv_validator.py:119-134 | the reported column is the first failing check, and every earlier check passed |
| TsvValidator.RowVerdictGood | be/tsv_validator.py:119-136 | a row is valid exactly when it is not blank, has three cells and passes all three checks |
| TsvValidator.RowVerdictRaises | be/tsv_validator.py:124-132 | a row raises `IndexError` exactly when its earlier checks pass and it lacks the next cell |
| TsvValidator.ScanCounts | be/tsv_validator.py:118-138 | the total counts the non-blank rows and the valid count counts the good rows. There is one error per bad row, and total minus valid is the number of errors |
| TsvValidator.ScanErrorLines | be/tsv_validator.py:118-134 | errors are in increasing line order within the data's lines, and each is the verdict of the row at its line |
| TsvValidator.ScanErrorOrder | be/tsv_validator.py:118-134 | error lines lie within the data's lines and strictly increase |
| TsvValidator.ScanErrorVerdicts | be/tsv_validator.py:118-134 | each error is the verdict of the data row at its line |
| TsvValidator.ScanLastErrors | be/tsv_validator.py:118-134 | the last row appends its error, carrying that row's line, after the errors of the rows before it |
| TsvValidator.ScanRaises | be/tsv_validator.py:118-134 | the loop raises exactly when some row raises, and what it raises is `IndexError` |
| TsvValidator.ScanLastRaises | be/tsv_validator.py:118-134 | the loop over one more row raises iff the shorter loop raised or the last row raises |
| TsvValidator.RaiseStopsScan | be/tsv_validator.py:128-132 | a row that raises makes the whole validation raise, whatever comes after it |
| TsvValidator.HasHeader | be/tsv_validator.py:109-110 | defines the header rule: the first row has a first cell that is not a number |
| TsvValidator.DataRows | be/tsv_validator.py:109-116 | defines the rows the loop sees: without the header when there is one |
| TsvValidator.FirstLine | be/tsv_validator.py:109-116 | defines the first data line: 2 after a header, 1 otherwise |
| TsvValidator.ObjectEntries | be/tsv_validator.py:145 | defines the errors passed to `ValidationResult` as `RowError` objects, one for one. `ValidationResult.AsDict` and `ValidateReport` prove what the report makes of them |
| TsvValidator.ValidateData | be/tsv_validator.py:109-147 | defines the result for a file with rows: the loop's exception, or the report with its counts, errors and header flag |
| TsvValidator.Validate | be/tsv_validator.py:98-147 | defines `validate_tsv` on the reader's rows as written: a file without rows takes the branch of lines 99-107 |
| TsvValidator.ValidateIntended | be/tsv_validator.py:98-147 | the same with the empty-file branch corrected to report its error |
| TsvValidator.ValidateIntendedAgrees | be/tsv_validator.py:98-147 | the correction changes only the empty file: the two agree on every file with rows, and on the empty file the code raises where the correction reports |
| TsvValidator.ValidateReport | be/tsv_validator.py:109-147 | the header is skipped exactly when the first cell of the first row is not a number, and the line numbers start at 2 then. The counts are those of the data rows, invalid is total minus valid and equals the error count, and `ok` holds exactly when there are no errors |
| TsvValidator.EmptyInputReport | be/tsv_validator.py:100-107 | defines the intended empty-file result, with the error as a `RowError` object |
| TsvValidator.EmptyInputAsWritten | be/tsv_validator.py:100-107 | defines the empty-file result as written, with the error already turned into a dict |
| TsvValidator.ValidateEmptyRaises | be/tsv_validator.py:99-107 | as written, `validate_tsv` of a file without rows raises `AttributeError` |
| TsvValidator.EmptyInputReported | be/tsv_validator.py:99-107 | with the correction, an empty file reports not ok, zero counts, no header and one "file" error at line 1, column 1 |
| TsvValidator.EmptyInputAsWrittenRaises | be/tsv_validator.py:99-107 | as written, the empty-file branch raises `AttributeError`, because the error passed in is already a dict |
| TsvValidator.ScanRows | be/tsv_validator.py:118-136 | the loop with its early `continue`s computes the scan specification |
| TsvValidator.ValidateRows | be/tsv_validator.py:98-147 | the validator on split rows computes `Validate`, including the `AttributeError` of an empty file |
| TsvValidator.ValidateTsv | be/tsv_validator.py:89-147 | the result is `Validate` of the reader's rows of the text with its line endings normalised (which leaves no carriage return, see `NormalizeNewlinesShape`) |

## Left out

- The web layer (`be/main.py`: upload, form parsing with `csv.DictReader`, JSON responses) and the browser front end are not part of this model. A row is a map from column title to text.
- The pseudo-random generator is not modelled. `random.sample`, `random.shuffle`, `random.choice` and the iteration order of Python sets are nondeterministic choices, constrained only by what each call may return.
- `datetime.strptime` is an uninterpreted parameter from text to an optional time, and times are natural numbers with `datetime.min` as 0. The `strftime` formatting of reports is not modelled, so reports carry the time value.
- The regular-expression engine, `csv.reader` and `str.splitlines` are not modelled as engines. The two patterns that shape logins and project tokens (`\s+` and `[,\s\t]+`) appear as functions over characters. The email pattern of `be/tsv_validator.py:16` lies inside the uninterpreted email check (see the next line), and the reader of `validate_tsv` is a parameter from text to rows.
- The cell checks of `validate_tsv` (`Decimal`, `strptime`, `email_validator` or its fallback pattern) are uninterpreted predicates. The model proves what the validator does with their answers, not which strings they accept.
- The fields `teams` and `projects` of `TeamProcessor` are initialised and never used, and `all_students` is only written. The model keeps them with the same behaviour.
- Team dicts and their member lists are values in the model, not shared objects, and the source shares them in three places.
  - Line 148 loops over a concatenation of the same dicts the three lists hold. It only reads them, so values give the same result.
  - Line 169 builds `all_other_teams` from the dicts of the invalid and extra lists, and lines 172 and 174 write through it. The model gets that effect by splitting the assigned list back into its invalid and extra parts (`Distribute`, `FallbackKeepsShape`).
  - `_prepare_result` puts each team's own `team_members` list into the result (lines 186, 194 and 201), so a result shares those lists with the processor's teams.
- The model does not capture the sharing of member lists. Its reports are copies. A later `process_teams` on the same processor can extend a team that is still flagged (lines 109 and 134). In the source that also changes the member list an earlier result holds; in the model the earlier reports stay as they were.
- Processor.TeamProcessor.ProcessTeams: does not promise that the unassigned pool ends empty. The code leaves the pool's size modulo five students unassigned when no team is short, and the model states that bound (fewer than five) instead.
- Processor.TeamProcessor.ProcessTeams: the distinct-assignment guarantee holds only when the catalog has at least one project per team and no valid team from an earlier call holds a project, and it covers only assigned projects. The second condition is always true for a new processor. The valid teams are a field set only in the constructor (lines 11-14), so they carry over between calls. Line 161 writes a project only when a free preference is found, so on a second call a kept team whose preferences are now all taken keeps its old project, and another team may now hold that project. A valid team whose preferences are all taken keeps no project and is reported as `random`, so several teams can show `random`.
- Processor.TeamProcessor.FillIncompleteTeams: the pool it fills from holds only the members of oversized teams. Students who appear only in the collected student set are never added to it, as in the code.

## Findings

| source | as written | input that shows it | evidently intended | confidence | as-written member | corrected member |
|---|---|---|---|---|---|---|
| be/tsv_validator.py:99-107 | the empty-file branch passes `RowError(...).as_dict()`, a dict, as an error, and `ValidationResult.as_dict` (line 58) then calls `.as_dict()` on that dict and raises `AttributeError` | an empty text, for which the reader yields no row | the report: not ok, zero counts, no header skipped, one "file" error "Файл пуст" at line 1, column 1 | not executed | TsvValidator.ValidateEmptyRaises | TsvValidator.EmptyInputReported |
