/**
 * The planner's records: a changed file, the split configuration with its
 * defaults and validation, one planned pull request and the whole plan.
 * Construction of a record goes through a function that performs the same
 * validation the record class does and reports the same failure.
 */
module Models {
  import opened Wrappers
  import opened Errors

  /** The status letters `git diff --name-status` reports and a `FileDiff` accepts. */
  predicate ValidStatus(c: char)
  {
    c == 'A' || c == 'M' || c == 'D' || c == 'R' || c == 'C' || c == 'T'
  }

  /** One changed file; `oldPath` is only set for renames and copies. */
  datatype FileDiff = FileDiff(path: string, status: char, oldPath: Option<string>)
  {
    predicate Valid()
    {
      ValidStatus(status)
    }
  }

  /** `FileDiff(path=…, status=…, old_path=…)`: the status must be one of the six letters. */
  function NewFileDiff(path: string, status: char, oldPath: Option<string>): (r: Result<FileDiff, Failure>)
    ensures r.Ok? <==> ValidStatus(status)
    ensures r.Ok? ==> r.value.Valid() && r.value.path == path && r.value.status == status && r.value.oldPath == oldPath
    ensures r.Err? ==> r.error == InvalidRecord("status", [status])
  {
    if ValidStatus(status) then Ok(FileDiff(path, status, oldPath))
    else Err(InvalidRecord("status", [status]))
  }

  /** A file diff built with the declared default (no old path). */
  function NewFileDiffDefault(path: string, status: char): (r: Result<FileDiff, Failure>)
    ensures r.Ok? <==> ValidStatus(status)
    ensures r.Ok? ==> r.value.oldPath == None
  {
    NewFileDiff(path, status, None)
  }

  /**
   * The split configuration. `assignments` maps a group number to its
   * `--assign` patterns and `titles` a group number to its `--title`; both
   * are read by the planner and the command line, and default to empty.
   */
  datatype SplitConfig = SplitConfig(
    baseBranch: string,
    sourceBranch: Option<string>,
    filePatterns: seq<string>,
    excludePatterns: seq<string>,
    numPrs: int,
    prefix: string,
    dependsOn: Option<string>,
    draft: bool,
    push: bool,
    repoPath: string,
    assignments: map<int, seq<string>>,
    titles: map<int, string>)
  {
    /** The source branch is set (non-empty) and names the base branch. */
    predicate SameBranches()
    {
      sourceBranch.Some? && sourceBranch.value != "" && sourceBranch.value == baseBranch
    }

    predicate Valid()
    {
      numPrs >= 1 && !SameBranches()
    }
  }

  const SameBranchesMessage: string := "source_branch and base_branch must be different"

  /**
   * `SplitConfig(...)`: the field constraint `num_prs >= 1` is checked
   * first; only then does the model validator reject a source branch that
   * is set and equal to the base branch.
   */
  function NewSplitConfig(
    baseBranch: string, sourceBranch: Option<string>, filePatterns: seq<string>,
    excludePatterns: seq<string>, numPrs: int, prefix: string, dependsOn: Option<string>,
    draft: bool, push: bool, repoPath: string,
    assignments: map<int, seq<string>>, titles: map<int, string>): (r: Result<SplitConfig, Failure>)
    ensures r.Ok? <==> numPrs >= 1 && !(sourceBranch.Some? && sourceBranch.value != "" && sourceBranch.value == baseBranch)
    ensures r.Ok? ==> (r.value.Valid()
      && r.value == SplitConfig(baseBranch, sourceBranch, filePatterns, excludePatterns, numPrs, prefix,
                                dependsOn, draft, push, repoPath, assignments, titles))
    ensures numPrs < 1 ==> r == Err(InvalidRecord("num_prs", "must be >= 1"))
    ensures numPrs >= 1 && r.Err? ==> r == Err(InvalidRecord("", SameBranchesMessage))
  {
    var config := SplitConfig(baseBranch, sourceBranch, filePatterns, excludePatterns, numPrs, prefix,
                              dependsOn, draft, push, repoPath, assignments, titles);
    if numPrs < 1 then Err(InvalidRecord("num_prs", "must be >= 1"))
    else if config.SameBranches() then Err(InvalidRecord("", SameBranchesMessage))
    else Ok(config)
  }

  /** `SplitConfig(num_prs=n)`: every other field takes its declared default. */
  function DefaultConfig(numPrs: int): (r: Result<SplitConfig, Failure>)
    ensures r.Ok? <==> numPrs >= 1
    ensures r.Ok? ==> (r.value.numPrs == numPrs
      && r.value.baseBranch == "main" && r.value.sourceBranch == None
      && r.value.filePatterns == ["**/*"] && r.value.excludePatterns == []
      && r.value.prefix == "" && r.value.dependsOn == None
      && r.value.draft && r.value.push && r.value.repoPath == "."
      && r.value.assignments == map[] && r.value.titles == map[])
  {
    NewSplitConfig("main", None, ["**/*"], [], numPrs, "", None, true, true, ".", map[], map[])
  }

  /** One planned pull request: its position, branch, files, title and body. */
  datatype PrGroup = PrGroup(
    index: int,
    branchName: string,
    files: seq<FileDiff>,
    title: string,
    body: string,
    dependsOn: Option<string>)

  /** The plan: the pull requests in order, the warnings raised while planning, and the two branches. */
  datatype SplitResult = SplitResult(
    groups: seq<PrGroup>,
    warnings: seq<string>,
    sourceBranch: string,
    baseBranch: string)

  /** `SplitResult(groups=…)`: no warnings and empty branch names by default. */
  function NewSplitResult(groups: seq<PrGroup>): (r: SplitResult)
    ensures r.groups == groups && r.warnings == [] && r.sourceBranch == "" && r.baseBranch == ""
  {
    SplitResult(groups, [], "", "")
  }
}
