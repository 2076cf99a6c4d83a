# pr-splitter, modelled in Dafny

pr-splitter takes the changes of one branch against a base branch and plans
a series of smaller pull requests that carry them. This project models the
planning core and proves properties of it:

- the planner (`splitter.py`):
  - filtering the changed files through include and exclude gitignore patterns;
  - dealing them round-robin, in path order, into `num_prs` groups, or routing
    them to groups by `--assign` patterns with a leftover group;
  - naming the branches, titling the pull requests and building their bodies;
  - assembling the whole plan, with its warnings and its failures;
- the command line's `--assign` and `--title` option parsers and the status
  icons of the plan listing (`cli.py`);
- the records and their validation (`models.py`);
- the pure parts of the git layer (`git_ops.py`):
  - reading `git diff --name-status` output into file diffs;
  - splitting a group's files into the paths to delete and the paths to check out;
  - the commit message of each split branch.

Modules:

| module | file |
|---|---|
| `Wrappers` | `wrappers.dfy` |
| `Errors` | `errors.dfy` |
| `Strings` | `strings.dfy` |
| `Groups` | `groups.dfy` |
| `Models` | `models.dfy` |
| `Sorting` | `sorting.dfy` |
| `Splitter` | `splitter.dfy` |
| `Cli` | `cli.dfy` |
| `GitOps` | `git_ops.dfy` |

What each module holds:

- `Wrappers`: `Option`, `Result`, and collecting a sequence of results.
- `Errors`: one `Failure` datatype for the exceptions the code raises:
  - `ValidationError`;
  - click's `BadParameter`;
  - pydantic's validation error;
  - `IndexError`.
- `Strings`: the Python string operations used:
  - `join`, `split` and `strip`;
  - `int()` and `str()` on integers;
  - `startswith`;
  - string ordering.
- `Groups`: lists of file groups.
- `Models`: the records.
- `Sorting`: `sorted(key=path)`, as a stable insertion sort.
- `Splitter`, `Cli`, `GitOps`: the three source modules.

Each loop of the source is a method. Its `ensures` ties the result to a
function of the inputs, and the lemmas prove the source's promises about that
function.

Gitignore matching is not modelled. It is a parameter
`matches(patterns, path)`, so every property below holds for any matcher.

## Model

| member | source | states |
|---|---|---|
| `Splitter.FilterFiles` | src/pr_splitter/splitter.py:15-38 | the loop keeps, in input order, exactly the files that `Kept` keeps |
| `Splitter.KeptMembers` | src/pr_splitter/splitter.py:31-36 | a file survives filtering exactly when it is in the input, some include pattern matches it (or there are none), and no exclude pattern matches it |
| `Splitter.KeptConcat` | src/pr_splitter/splitter.py:31-36 | filtering is applied file by file: filtering a concatenation concatenates the filtered halves |
| `Splitter.KeptWithoutPatterns` | src/pr_splitter/splitter.py:20-29 | with no include and no exclude patterns every file is kept, in order |
| `Splitter.DistributeFiles` | src/pr_splitter/splitter.py:41-49 | the loop computes `Distribution`: the path-sorted files dealt round-robin into `n` groups, empty groups dropped |
| `Splitter.DistributionCount` | src/pr_splitter/splitter.py:41-49 | there are `min(n, len(files))` groups and none is empty |
| `Splitter.DistributionPlacement` | src/pr_splitter/splitter.py:44-48 | the `i`-th file in path order is at position `i // n` of group `i % n` |
| `Splitter.DistributionSizes` | src/pr_splitter/splitter.py:44-48 | group `k` holds `len // n` files plus one when `k < len % n`, so sizes differ by at most one |
| `Splitter.DistributionPartition` | src/pr_splitter/splitter.py:41-49 | the groups together are a permutation of the input |
| `Splitter.DistributionSorted` | src/pr_splitter/splitter.py:44-48 | every group lists its files in ascending path order |
| `Splitter.ClaimIsLowestMatch` | src/pr_splitter/splitter.py:69-73 | a file's claim is the lowest group number whose patterns match it, and there is no claim exactly when no group matches |
| `Splitter.ScanKeys` | src/pr_splitter/splitter.py:69-73 | the scan over the group numbers in ascending order returns the first one that matches |
| `Splitter.FindClaim` | src/pr_splitter/splitter.py:69-73 | the inner loop of `assign_files` finds the claim of a path |
| `Splitter.PlaceFile` | src/pr_splitter/splitter.py:66-75 | one file goes to its claimed group (Python list index, so negative numbers count from the end), or to the leftovers, or raises `IndexError` |
| `Splitter.AssignFiles` | src/pr_splitter/splitter.py:52-81 | the method computes `Assignment`: files in path order routed to groups, empty groups dropped, leftovers last |
| `Splitter.AssignmentFails` | src/pr_splitter/splitter.py:71 | `assign_files` fails exactly when some file's claim has no group among `num_prs`, and then the failure is `IndexError` |
| `Splitter.AssignmentPartition` | src/pr_splitter/splitter.py:52-81 | the groups together are a permutation of the input |
| `Splitter.AssignmentShape` | src/pr_splitter/splitter.py:77-81 | at most `num_prs + 1` groups, none empty, each in path order |
| `Splitter.AssignmentSameTarget` | src/pr_splitter/splitter.py:66-81 | two files share a group exactly when they have the same target (a group slot or the leftovers) |
| `Splitter.AssignmentSlotOrder` | src/pr_splitter/splitter.py:66-81 | the output groups follow the order of the slots they were claimed for: of two groups, when the later was claimed for a slot, the earlier was claimed for a lower slot; empty slots are skipped and the leftovers come after every claimed group |
| `Splitter.AssignmentLeftoverLast` | src/pr_splitter/splitter.py:74-81 | when some file matches no group, the last group is exactly the unmatched files |
| `Splitter.AssignmentAllClaimed` | src/pr_splitter/splitter.py:74-81 | when every file matches some group, every file in the output is in a claimed group |
| `Splitter.AssignmentMoreThanSlots` | src/pr_splitter/splitter.py:77-81 | there are more than `num_prs` groups exactly when some file is unclaimed and every one of the `num_prs` slots received a file |
| `Splitter.BranchStem` | src/pr_splitter/splitter.py:87-89 | the stem starts with the prefix; it is the source branch when that already starts with the prefix, and otherwise the prefix followed by the source branch |
| `Splitter.BranchStemIdempotent` | src/pr_splitter/splitter.py:87-89 | prefixing twice is the same as prefixing once |
| `Splitter.BranchNameShape` | src/pr_splitter/splitter.py:84-92 | every branch name starts with the prefix and with the prefixed source branch; the split of the name into stem and suffix is the step the distinctness proof uses |
| `Splitter.BranchNamesDistinct` | src/pr_splitter/splitter.py:89-92 | two different positions give different branch names, whichever of them is the leftover |
| `Splitter.StatusLabel` | src/pr_splitter/splitter.py:115-122 | the label is never empty, and it is the raw status letter exactly when the letter is not one of the six known ones |
| `Splitter.FileLinesAt` | src/pr_splitter/splitter.py:114-123 | listing line `k` is the line built for file `k` |
| `Splitter.BodyLength` | src/pr_splitter/splitter.py:95-130 | the body has 5 fixed lines and one per file; it has 4 more when there is a source body (which it opens with), and 2 more when there is a dependency |
| `Splitter.BodyListing` | src/pr_splitter/splitter.py:104-124 | after the source body come the part line, the `## Files` heading between blank lines, one line per file in order, and a blank line |
| `Splitter.BodyDependsOn` | src/pr_splitter/splitter.py:126-128 | the body ends with `Depends on: …` and a blank line exactly when there is a dependency |
| `Splitter.BodySplitsIntoLines` | src/pr_splitter/splitter.py:130 | when no input holds a line break, splitting the joined body at line breaks gives back its lines |
| `Splitter.AppendFileLines` | src/pr_splitter/splitter.py:114-123 | the loop appends exactly the listing lines of the files |
| `Splitter.BuildPrBody` | src/pr_splitter/splitter.py:95-130 | the body is the body lines joined with line breaks |
| `Splitter.PlanRejects` | src/pr_splitter/splitter.py:140-167 | `split` fails with `ValidationError` on an empty diff, and also when no file passes the patterns; with patterns it fails exactly when `assign_files` raises `IndexError` |
| `Splitter.PlanPartition` | src/pr_splitter/splitter.py:143-218 | every file that passes the patterns is in exactly one planned pull request |
| `Splitter.PlanGroupsSorted` | src/pr_splitter/splitter.py:159-218 | no planned pull request is empty, and each lists its files in path order |
| `Splitter.PlanWithoutAssignments` | src/pr_splitter/splitter.py:168-176 | without `--assign` there are `min(num_prs, len(filtered))` pull requests and a warning exactly when fewer files than `num_prs` pass |
| `Splitter.PlanBranches` | src/pr_splitter/splitter.py:159-184 | with or without `--assign`, pull request `i` of `total` gets the branch `{stem}-part-{i + 1}-of-{total}`, except the last when `--assign` was given and there are more groups than `num_prs`, which gets `{stem}-part-leftover-of-{total}` |
| `Splitter.PlanBranchesNumbered` | src/pr_splitter/splitter.py:168-184 | without `--assign` every branch is numbered by its position |
| `Splitter.PlanLeftoverFlag` | src/pr_splitter/splitter.py:159-184 | with `--assign` there are at most `num_prs + 1` pull requests; when there are more than `num_prs` the last one is flagged as leftovers and one warning counts its files, otherwise there is no warning |
| `Splitter.PlanLeftoverWhen` | src/pr_splitter/splitter.py:159-167 | the leftover flag is raised exactly when some file matches no pattern and every group slot received a file |
| `Splitter.PlanTitles` | src/pr_splitter/splitter.py:186-193 | each numbered pull request is titled `[i/n]` and then its custom title when set and non-empty, else the open pull request's title, else the source branch |
| `Splitter.PlanBranchesDistinct` | src/pr_splitter/splitter.py:178-218 | no two planned pull requests share a branch name |
| `Splitter.PlanFields` | src/pr_splitter/splitter.py:178-225 | each pull request records its position, the dependency and its built body; the plan records the source branch (configured or current) and the base branch |
| `Splitter.GroupByAssignments` | src/pr_splitter/splitter.py:159-167 | the `--assign` branch of `split`: `assign_files`, the leftover flag and its warning |
| `Splitter.GroupRoundRobin` | src/pr_splitter/splitter.py:168-176 | the branch of `split` without `--assign`: `distribute_files` over `min(num_prs, len(filtered))` groups and the fewer-files warning |
| `Splitter.PlanGroups` | src/pr_splitter/splitter.py:178-218 | the loop builds one pull request per group, as `PlannedPrs` describes |
| `Splitter.PlanSplit` | src/pr_splitter/splitter.py:133-225 | the planning part of `split` computes `Plan` |
| `Cli.ParseEntryShape` | src/pr_splitter/cli.py:15-29 | a value without `:` is a format error; otherwise the group is the integer read before the first `:` and the text is everything after it |
| `Cli.ParseEntryRoundTrip` | src/pr_splitter/cli.py:19-29 | `"{g}:{text}"` with `g >= 1` of at most 4300 digits reads back as group `g` and that text, even when the text holds `:` |
| `Cli.ParseEntryErrors` | src/pr_splitter/cli.py:20-29 | for a value with a colon: a group text `int()` refuses, and a group below 1, give their own `BadParameter` messages; a group text `int()` reads as `g >= 1`, in any spelling, is accepted as group `g` with the rest as its text |
| `Cli.GroupOptionMeaning` | src/pr_splitter/cli.py:12-31 | `--assign` succeeds exactly when every value parses; the first bad value's error is raised; each group maps to its patterns in the order given |
| `Cli.TitleOptionMeaning` | src/pr_splitter/cli.py:34-53 | `--title` succeeds exactly when every value parses; every group given has a title, and it is the text of the last value for that group |
| `Cli.ParseGroupOption` | src/pr_splitter/cli.py:12-31 | the loop computes `GroupOption` |
| `Cli.ParseTitleOption` | src/pr_splitter/cli.py:34-53 | the loop computes `TitleOption` |
| `Cli.StatusIcon` | src/pr_splitter/cli.py:190-197 | one character, and `?` exactly for a status letter not among the six |
| `Cli.StatusIconsDistinct` | src/pr_splitter/cli.py:190-197 | the six known letters have six different icons |
| `GitOps.ParseLineStatus` | src/pr_splitter/git_ops.py:52-56 | a line fails exactly when it is empty, starts with a tab (`IndexError`) or starts with an unknown letter; the status is the line's first character |
| `GitOps.ParseLineRoundTrip` | src/pr_splitter/git_ops.py:52-56 | a line written as `git diff --name-status` writes it, with any similarity score, reads back as the same file diff |
| `GitOps.ParseLinesMeaning` | src/pr_splitter/git_ops.py:50-58 | the output parses exactly when every line does, into one file diff per line in order; otherwise the first bad line's error is raised |
| `GitOps.GetChangedFiles` | src/pr_splitter/git_ops.py:46-58 | the loop computes `ParseOutput`: empty output gives no files, otherwise the stripped output's lines are parsed |
| `GitOps.ParseOutputRoundTrip` | src/pr_splitter/git_ops.py:46-58 | the output written for a list of well-formed file diffs parses back to that list |
| `GitOps.PathsWhereAppend` | src/pr_splitter/git_ops.py:83-87 | the partition is applied file by file |
| `GitOps.PathsWhereCount` | src/pr_splitter/git_ops.py:81-87 | the deleted and checked-out paths together are, as a multiset, all the paths |
| `GitOps.PathsWhereLength` | src/pr_splitter/git_ops.py:81-87 | every file contributes exactly one path to one of the two lists |
| `GitOps.PathsWhereMembers` | src/pr_splitter/git_ops.py:84-87 | a path is in the deleted list exactly when some file with that path has status `D`, and in the checkout list exactly when some file with that path has another status |
| `GitOps.PartitionByDeletion` | src/pr_splitter/git_ops.py:81-87 | the loop computes both lists |
| `GitOps.CommitMessagePlural` | src/pr_splitter/git_ops.py:98-102 | the message says `files` exactly when the count is not one |
| `GitOps.CommitMessagesDistinct` | src/pr_splitter/git_ops.py:98-102 | different file counts give different commit messages |
| `Models.NewFileDiff` | src/pr_splitter/models.py:26-29 | a file diff is built exactly when the status is one of `A M D R C T`; otherwise the status field is rejected |
| `Models.NewFileDiffDefault` | src/pr_splitter/models.py:26-29 | without an old path, the old path is `None` |
| `Models.NewSplitConfig` | src/pr_splitter/models.py:7-23 | a configuration is built exactly when `num_prs >= 1` and the source branch, when set, differs from the base; `num_prs` is checked first |
| `Models.DefaultConfig` | src/pr_splitter/models.py:7-17 | every field but `num_prs` takes its declared default |
| `Models.NewSplitResult` | src/pr_splitter/models.py:41-45 | a result starts with no warnings and empty branch names |
| `Sorting.SortByPath` | src/pr_splitter/splitter.py:42 | sorting by path gives a permutation of the files |
| `Sorting.SortByPathSorted` | src/pr_splitter/splitter.py:65 | sorting by path gives ascending path order |
| `Strings.IntOfRoundTrip` | src/pr_splitter/cli.py:21 | `int(str(i))` is `i` for every integer of at most 4300 digits, and `ValueError` beyond |
| `Strings.IntOfLeadingChar` | src/pr_splitter/cli.py:20-25 | a character before a number that is not a digit or a sign is skipped by `int()` when it is whitespace `int()` skips (ASCII space, tab, line feed, vertical tab, form feed, carriage return, or non-ASCII `isspace`), and otherwise makes the group number unreadable; a skipped character leaves the number read when it has at most 4300 digits |

## Left out

- Git and process I/O is not modelled:
  - opening and validating the repository;
  - `get_current_branch` and the merge-base lookup;
  - the checkout, `rm`, `add`, `commit` and `push` calls of `create_branch_with_files` and `execute_split`;
  - the `GitError` each can raise.
  The current branch, the diff output, and the open pull request's title and body are parameters.
- `github.py` (the `gh` calls that find and open pull requests) is not part of this model.
- The rest of `cli.py` is not part of this model: the click wiring, echo, prompts and colours. Only the option parsers and the status icons are modelled.
- Gitignore pattern matching (`pathspec`) is an uninterpreted parameter. An empty pattern list is modelled as "no include filter". The Python code instead tests the truthiness of the compiled spec, which is also false for a list holding only blank patterns.
- `Strings.IntOf`: Python's `int()` also accepts `_` digit separators and non-ASCII digits. The model accepts surrounding whitespace, an optional sign and ASCII digits only. The whitespace is CPython's: among ASCII characters only space, tab, line feed, vertical tab, form feed and carriage return (not U+001C to U+001F, which `str.isspace` and `strip()` accept), and beyond ASCII what `str.isspace` accepts. More than 4300 digits are refused, CPython's default `int()` digit limit; a limit changed with `sys.set_int_max_str_digits` or `PYTHONINTMAXSTRDIGITS` is not modelled.
- `Strings.IntToString`: it has no digit limit. CPython's `str()` of an integer above 4300 digits raises `ValueError`. The texts built with it hold group numbers that `int()` already read, positions and counts, which stay far below that limit.
- `Errors.Failure`: pydantic's and click's exact message wording is represented by a field name and a short message, not by the libraries' full text.
- A missing pull-request title or body is given as the empty string, as the source's `pr_info.get(..., "")` yields.
- `Splitter.DistributeFiles`: it requires `num_prs >= 1` when there are files, and `split` never calls it otherwise. With files, the source raises `ZeroDivisionError` at `i % num_prs` when `num_prs` is 0. When `num_prs` is negative, `range(num_prs)` builds no groups and `groups[i % num_prs]` raises `IndexError`.
- `Models.SplitConfig`: the record carries `assignments` and `titles` fields, because `cli.py` passes them (lines 166-167) and `split` reads them (`splitter.py` lines 159 and 187). `models.py` as written does not declare them (lines 7-17). Pydantic ignores undeclared keyword arguments by default, so as written the values are dropped and `config.assignments` raises `AttributeError`. The model follows the evident intent and treats both as declared fields, empty by default.
- The test suite is not modelled.
