# gimerge, modelled in Dafny

gimerge is a small git helper. It records that a branch has been merged by creating a lightweight
*merge tag* named `merged.{source}->{target}@timestamp`. Later, from a list picker in the terminal, the
user chooses merge tags to clean up: each chosen tag is deleted, and so is its source branch, unless
that branch is checked out. The same logic exists twice: in the command-line program `main.go`, and in
the packages `git` and `tui`, which the program does not use.

This project models the logic-bearing core of both copies and proves properties of it:

- `Codec`: the tag-name protocol.
  - The encoder is the `Sprintf` layout.
  - The listing decoder is the anchored pattern with three groups, followed by the integer parse.
  - The looser cleanup pattern is a second decoder that allows an empty target.
  - Decoding is written as explicit string splitting and proved to agree with the pattern as a relation
    (`Codec.Matches`): it finds a match whenever there is one, and it reproduces the greedy groups.
- `Selection`: the picker's key handling (`Update`) as a transition function on a state made of items
  with check flags, a cursor, the selections and the quitting flag.
  - The class `Selection.Model` holds that state in place, with the items in an array whose flags the
    space key flips, and `Selection.Model.Step` is proved to perform `Update`.
- `Listing`: the branch listing and the merge-tag listing built from git's output, taken as a
  sequence of lines.
  - The tag listing keeps the decodable names and sorts them in place by timestamp, most recent first.
- `CleanupPlan` and `Cleanup`: the cleanup loop.
  - It is modelled as the ordered list of git operations it issues (`DeleteTag`, `DeleteBranch`),
    together with the report it prints.
  - The outcome of each git command is a parameter, keyed by the command's position in issue order, so
    a command can succeed once and fail when it is repeated.
- `Creation`: building and issuing the tag name at each of the two call sites, and the dispatch in
  `main` once the picker has ended.

The model follows the code as written, in particular:

- The multi-select result lists the checked items in list order, not in the order they were checked
  (`Selection.MultiSelectListOrder`).
- `sort.Slice` is not stable, so the tag listing promises only a permutation ordered by non-increasing
  timestamp.
  - `Listing.SortExample` shows that this is enough to fix the order when the timestamps differ.
- The branch listing in `main.go` does not drop the checked-out branch; only `git.GetBranches` does.
- The two tag builders write the branches in opposite orders.
  - `main.go` puts the checked-out branch first and tags `HEAD`.
  - `git.TagBranch` puts the selected branch first and tags that branch.
  - Both are modelled as written. `Creation.MainTagCleanup` and `Creation.GitTagCleanup` state what
    each order means for a later cleanup.
- An out-of-range timestamp is parsed as the largest 64-bit integer, because the parse error is
  ignored and the value it returns is kept.

## Model

| member | source | states |
|---|---|---|
| Codec.FormatIntDigits | main.go:222 | the `%d` rendering of a timestamp is a non-empty run of digits, without a leading zero, whose value is the timestamp |
| Codec.ParseInt64 | main.go:179 | a digit string whose value fits in 64 bits parses to that value; any other parses to the largest 64-bit integer, which is then below its value |
| Codec.Encode | main.go:222 | the name built from a non-empty, newline-free source, a newline-free target and a timestamp matches the listing pattern with those groups and the rendered timestamp as digit group (the cleanup pattern when the target is empty) |
| Codec.Decode | main.go:174-185 | a decoded record keeps the name it came from, has non-empty source and target, and a timestamp no larger than the largest 64-bit integer |
| Codec.CleanupSource | git/git.go:101-109 | the source the cleanup pattern yields never holds a newline |
| Codec.DecodeMatchesPattern | main.go:160-179 | a name decodes exactly when the listing pattern matches it, and then the record's source and target are the groups of a match whose digit group parses to the record's timestamp |
| Codec.DecodeShape | git/git.go:55 | every name that decodes starts with `merged.{` or `merged{` and ends with a digit, so a name with another prefix, or one that does not end in a digit, never decodes |
| Codec.CleanupSourceMatchesPattern | git/git.go:101-109 | the cleanup source is non-empty exactly when the cleanup pattern matches the name, and then it is the source group of a match |
| Codec.SplitSound | main.go:160 | whatever the splitter returns is a match of the anchored pattern: prefix `merged{` or `merged.{`, non-empty source, a target of at least the group's minimum length, a non-empty digit run, no newline inside a group |
| Codec.SplitComplete | git/git.go:55 | whenever a name matches the pattern, the splitter succeeds, with the same digit group and a source group at least as long as any matching one (the greedy choice) |
| Codec.SplitLayout | main.go:160 | a name laid out from non-empty, newline-free groups with a `}`-free target splits back into exactly those groups, for both prefixes |
| Codec.DecodeEncode | main.go:222 | round trip: decoding the name built from (source, target, ts) gives that source, target and ts, and the name itself |
| Codec.CleanupSourceEncode | git/git.go:101-109 | the cleanup pattern recovers the source of every encoded name with a non-empty, newline-free source, for every `}`-free, newline-free target, the empty one included |
| Codec.DecodeBothForms | main.go:160 | `merged{a}->{b}@100` and `merged.{a}->{b}@100` both decode to source a, target b, timestamp 100 |
| Codec.DecodeRejectsPrefix | git/git.go:55 | example: `mergedXYZ`, which lacks the `merged{` / `merged.{` prefix, does not decode |
| Codec.DecodeRejectsNoDigits | git/git.go:55 | example: `merged.{a}->{b}@`, with no digits after `@`, does not decode |
| Codec.DecodeRejectsTrailingText | main.go:160 | example: `merged.{a}->{b}@12x`, with text after the digits, does not decode (the pattern is anchored) |
| Codec.DecodeRejectsEmptySource | main.go:160 | example: `merged.{}->{b}@1`, with an empty source group, does not decode |
| Codec.DecodeRejectsEmptyTarget | git/git.go:55 | example: `merged.{a}->{}@5`, with an empty target group, does not decode under the listing pattern |
| Codec.CleanupAcceptsEmptyTarget | git/git.go:101 | the cleanup pattern matches `merged.{a}->{}@5` and yields source a |
| Codec.DecodeIsGreedy | main.go:160 | with two arrows, the source group takes the longest possible prefix: `merged.{a}->{b}->{c}@1` has source `a}->{b` and target `c` |
| Codec.NewlineNeverMatches | git/git.go:55 | a name holding a newline matches neither pattern (`.` does not match a newline) |
| Selection.Label | main.go:49-58 | the rendered label is `[x] ` exactly when the item is checked and `[ ] ` exactly when it is not, followed by a tag's non-empty description or otherwise the title |
| Selection.Update | tui/model.go:39-81 | one message keeps the mode and the number of items, changes at most the check flags of items, never clears the quitting flag, and changes the selections only on enter, which then quits |
| Selection.Run | main.go:320 | delivering a sequence of messages keeps the mode and the items' titles, and a session that has already quit receives nothing more |
| Selection.CancelOnlyQuits | tui/model.go:43-45 | `ctrl+c` and `q` set the quitting flag and change nothing else |
| Selection.ToggleFlipsCursorItemOnly | tui/model.go:46-51 | in multi-select mode space flips the check flag of the item under the cursor and keeps its title, description and kind; every other item, the cursor, the selections, the mode and the quitting flag stay as they were |
| Selection.ToggleTwiceRestores | main.go:88-94 | in multi-select mode two spaces in a row restore the state, with or without an item under the cursor |
| Selection.SpaceInSingleModeKeepsFlags | tui/model.go:46-47 | in single-select mode space reaches the list library, changes no check flag and only moves the cursor as the library does |
| Selection.PassThroughKeepsItems | tui/model.go:73-80 | other keys and messages only move the cursor; a window resize of any width changes nothing of the modelled state |
| Selection.CheckedTitlesMembers | tui/model.go:55-59 | a title is among the checked titles exactly when some checked item has it |
| Selection.CheckedTitlesAppend | main.go:97-101 | the checked titles of a concatenation are the concatenation of the checked titles: the walk keeps list order |
| Selection.EnterMulti | tui/model.go:54-64 | multi-select enter with no earlier selections yields the checked titles in list order when any item is checked, otherwise exactly the item under the cursor, or nothing when there is none; it always quits |
| Selection.EnterSingle | tui/model.go:65-70 | single-select enter yields exactly the title under the cursor, ignoring the check flags, or keeps the selections when there is no item; it always quits |
| Selection.SelectionsOnlyOnEnter | tui/model.go:39-81 | no message other than enter changes the selections |
| Selection.CancelledSessionSelectsNothing | tui/model.go:43-45 | a session that is cancelled before any enter ends quitting with no selections; the messages after the cancel are never delivered |
| Selection.MultiSelectListOrder | main.go:95-107 | checking the third item, then the first, then confirming yields the first and the third title in list order, and quits |
| Selection.Model.constructor | tui/model.go:28-33 | a new model holds the given items in a fresh array, with no selections, not quitting, and the cursor on the first item when there is one |
| Selection.Model.CollectChecked | tui/model.go:55-59 | the loop over the items collects the checked titles in list order; a title is collected exactly when a checked item has it |
| Selection.Model.Step | tui/model.go:39-81 | one message applied in place leaves the object in the state `Update` gives for the old state |
| Listing.KeptBranchesCount | git/git.go:39-43 | every name occurs among the listed branches as often as among the lines, except that the empty line and the current branch never occur |
| Listing.GetBranches | git/git.go:37-44 | the loop keeps the lines that are neither empty nor the current branch, in their order |
| Listing.BranchItems | main.go:140-147 | the program's branch listing keeps every non-empty line in order (the current branch included), each as an unchecked non-tag item titled by the line |
| Listing.DetectedMembers | git/git.go:57-74 | a record is collected exactly when its name is one of the lines and decodes to that record: empty and non-matching lines are skipped, never an error |
| Listing.DecodeKeepsName | main.go:180-185 | a decoded record keeps the raw line as its name, and that line is non-empty |
| Listing.SortByTsDesc | git/git.go:76-78 | the in-place sort leaves the records ordered by non-increasing timestamp, as a permutation of what was there |
| Listing.InsertAt | main.go:188-190 | one insertion step extends the ordered prefix by one element, keeps the multiset of records, and leaves every record after position i where it was |
| Listing.GetMergedTags | git/git.go:47-81 | the tag listing is a permutation of the decoded records of the lines, ordered by non-increasing timestamp |
| Listing.TagItems | main.go:192-202 | each record becomes, in order, a tag item titled by the raw name, with the date, source and target as description |
| Listing.MergedTagItems | main.go:150-204 | the program's tag listing: the records are a sorted permutation of the decodable lines, and item k is built from record k |
| Listing.TagItemLabel | main.go:49-52 | a tag item renders its description, not its raw name, unchecked |
| Listing.BranchItemLabel | main.go:49-58 | a branch item renders as `[ ] ` followed by the branch name |
| Listing.SortExample | main.go:188-190 | records with timestamps 100, 300, 200 can only be listed as 300, 200, 100 |
| CleanupPlan.TagOpsShape | git/git.go:111-132 | one tag's operations: none exactly when its source is the checked-out branch; otherwise the tag deletion first, then the deletion of its source exactly when the source is non-empty, and never more than two |
| CleanupPlan.Plan | main.go:243-266 | the pass issues at most two commands per tag |
| CleanupPlan.PlanAppend | git/git.go:104-133 | tags are handled one after another: the operations for a concatenation of tag lists are the operations of the first list, then those of the second |
| CleanupPlan.PlanIsSafe | main.go:243-266 | no branch deletion names the empty branch or the checked-out branch, and every deleted tag comes from an entry whose source is not checked out |
| CleanupPlan.PlanDeletesOthers | git/git.go:111-132 | every tag whose source is not checked out is deleted, and so is its source branch when its source is non-empty |
| Cleanup.LogIssuesPlan | git/git.go:117-132 | the operations the report records as issued are exactly the planned ones, whatever the outcome of each command at each position: a failed deletion changes only the report |
| Cleanup.Outcomes | git/git.go:117-132 | the report records one outcome per issued command |
| Cleanup.LogRecordsOutcomes | git/git.go:117-132 | the report records, for the k-th issued command, the outcome of the k-th planned operation at position k |
| Cleanup.RepeatedBranchDeletion | main.go:258-266 | two tags with the same source issue its branch deletion twice, and the report can record the first as succeeded and the repeated one as failed |
| Cleanup.CleanupTag | main.go:243-266 | one pass over a tag produces exactly that tag's report lines: skipped when its source is checked out, otherwise the tag deletion, then its source's deletion when there is a source, with the outcomes of the commands at the next issue positions; it counts the commands it issues |
| Cleanup.CleanupTagsAndBranches | main.go:233-270 | the loop, given the branch read once and the outcome of each command by issue position, produces the report of the plan for the decoded entries, issues exactly the planned operations, and always returns no error |
| Cleanup.TagSourcesOf | git/git.go:105-109 | each entry keeps its tag's name; its source is empty exactly when no choice of groups matches the cleanup pattern, and otherwise it is the source group of a match |
| Cleanup.SkipsCheckedOutSource | git/git.go:111-114 | a tag whose source is the checked-out branch causes no operation at all |
| Cleanup.UnmatchedTagDeletesTagOnly | main.go:238-262 | a tag the cleanup pattern does not match is still deleted, but no branch deletion is attempted |
| Cleanup.CleanupExample | main.go:244-266 | the tag of feature-x merged into main is skipped while feature-x is checked out, and deletes the tag and feature-x while main is |
| Creation.MainTagCommand | main.go:215-231 | the program tags HEAD with a name whose listing decode has the checked-out branch as source, the selected branch as target, and the timestamp used |
| Creation.GitTagCommand | git/git.go:83-98 | the package tags the selected branch with a name whose listing decode has the selected branch as source, the checked-out branch as target, and the timestamp used |
| Creation.TagBranch | git/git.go:84-97 | tagging succeeds exactly when the current branch could be read and `git tag` succeeded, and then returns the built name; a failed read is reported before anything else |
| Creation.MainTagBranch | main.go:215-231 | the program's attempt tags exactly when the branch read and `git tag` succeed, a failed read is reported as such, a failed `git tag` was a tag of HEAD, and the created name lists with the checked-out branch as source and the selected one as target |
| Creation.GitTagBranch | git/git.go:83-98 | the package's attempt tags exactly when the branch read and `git tag` succeed, a failed read is reported as such, a failed `git tag` named the selected branch as commit, and the created name lists with the selected branch as source and the checked-out one as target |
| Creation.MainTagCleanup | main.go:222 | a program-made tag is skipped by a cleanup run on the branch it was made from, and a cleanup elsewhere deletes that branch, not the selected one |
| Creation.GitTagCleanup | git/git.go:90 | a package-made tag cleaned up from the branch it was made on deletes the tag and the selected, merged branch |
| Creation.Act | main.go:327-341 | nothing happens without selections; in cleanup mode every selection is cleaned up; otherwise only the first selection is tagged |

## Left out

- Every git invocation is left out. Its output is an input, already split into lines, and its effect is an issued operation or a success flag.
  - This covers reading the checked-out branch, listing references and tags, creating and deleting tags, and deleting branches.
- The terminal runtime and the list library's internals are left out: navigation, filtering, pagination, resizing and drawing.
  - Instead, every message the model passes on to the library carries the cursor position the library leaves.
  - A cursor past the last item means no item, as for the library's empty selection.
- Styling, the `> ` highlight wrapper, `View` and `Init` are presentation only.
- The filter value (`FilterValue`) is used only by the list library's filtering.
- Reading the clock and formatting the date in a tag's description are left out. The timestamp is a parameter, and the date text is a function given as a parameter.
- Trimming git's output with `strings.TrimSpace` and splitting it into lines are input handling and are not modelled: the lines are an input.
- Flag parsing, exit codes, the "No items found." early exit and all printing are left out.
  - The printed report of the cleanup is modelled as a sequence of report lines. Its wording is not.
- Codec.ParseInt64: models the parse error of an out-of-range timestamp only by its returned value, the largest 64-bit integer. Timestamps are natural numbers, so negative timestamps are not modelled.
- Codec.CleanupSourceEncode: states the recovery only for targets without `}`. With a `}` in the target, the greedy source group can take part of the target.
- Selection.Run: delivery is modelled as stopping at the first quitting state. The terminal runtime, and the commands handed back to it, are not modelled, so this stop is an assumption.
- Codec.DecodeEncode: states the round trip only for targets without `}`. With a `}` in the target, the greedy source group can take part of the target, as `Codec.DecodeIsGreedy` shows.
- Selection.Model.Step: assumes every list entry is an item of the program's own type, so the type assertions on list entries always succeed.
- The list library keeps the item pointers it is given, so the toggle on space and the walk on enter see the same items. The model puts those items in one array that both read. Other ways of aliasing through the pointers are not modelled.
