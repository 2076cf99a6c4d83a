/**
 * The pure parts of the git layer: reading `git diff --name-status`
 * output into file diffs, splitting a group's files into the paths to
 * remove and the paths to check out, and the commit message of a split
 * branch. The git commands themselves are not part of this model.
 */
module GitOps {
  import opened Wrappers
  import opened Errors
  import opened Strings
  import opened Models

  /**
   * One line of `--name-status` output: tab-separated fields, the status
   * being the first character of the first (`R100` gives `R`), the path
   * the last field, and the old path the second field when there are
   * exactly three. An empty first field raises `IndexError`; a status
   * letter `FileDiff` does not accept is refused by the record.
   */
  function ParseLine(line: string): Result<FileDiff, Failure>
  {
    var parts := Split(line, '\t');
    if parts[0] == "" then Err(IndexError)
    else NewFileDiff(parts[|parts| - 1], parts[0][0], if |parts| == 3 then Some(parts[1]) else None)
  }

  /** `sep.join(parts)` begins with the first part. */
  lemma JoinStarts(parts: seq<string>, sep: string)
    requires |parts| >= 1
    ensures |Join(parts, sep)| >= |parts[0]| && Join(parts, sep)[..|parts[0]|] == parts[0]
  {
  }

  /** `sep.join(parts)` ends with the last part. */
  lemma {:induction false} JoinEnds(parts: seq<string>, sep: string)
    requires |parts| >= 1
    ensures var s := Join(parts, sep); var last := parts[|parts| - 1];
      |s| >= |last| && s[|s| - |last|..] == last
  {
    if |parts| > 1 {
      JoinEnds(parts[1..], sep);
    }
  }

  /**
   * A line fails exactly when it is empty, starts with a tab, or starts
   * with a letter that is not a status; a line that reads has the line's
   * first character as its status.
   */
  lemma ParseLineStatus(line: string)
    ensures ParseLine(line).Err? <==> line == [] || line[0] == '\t' || !ValidStatus(line[0])
    ensures ParseLine(line).Ok? ==> ParseLine(line).value.status == line[0] && ParseLine(line).value.Valid()
    ensures line == [] || line[0] == '\t' ==> ParseLine(line) == Err(IndexError)
  {
    var parts := Split(line, '\t');
    JoinStarts(parts, "\t");
    if parts[0] == "" && |parts| > 1 {
      assert line == parts[0] + "\t" + Join(parts[1..], "\t");
    }
  }

  /** The fields git writes for a file: status and score, the old path of a rename or copy, and the path. */
  function Fields(score: string, f: FileDiff): seq<string>
  {
    if f.oldPath.Some? then [[f.status] + score, f.oldPath.value, f.path] else [[f.status] + score, f.path]
  }

  /** The `--name-status` line git writes for a file. */
  function NameStatusLine(score: string, f: FileDiff): string
  {
    Join(Fields(score, f), "\t")
  }

  /** Tabs and newlines only ever separate fields and lines. */
  predicate Plain(s: string)
  {
    '\t' !in s && '\n' !in s
  }

  /** A file git can write as a line that reads back: valid status, and no tab or newline inside a field. */
  predicate Writable(score: string, f: FileDiff)
  {
    f.Valid() && Plain(score) && Plain(f.path) && (f.oldPath.Some? ==> Plain(f.oldPath.value))
  }

  /** The record a file's line is read back into is the file itself, whatever the similarity score. */
  lemma ParseLineRoundTrip(score: string, f: FileDiff)
    requires Writable(score, f)
    ensures ParseLine(NameStatusLine(score, f)) == Ok(f)
  {
    SplitJoin(Fields(score, f), '\t');
  }

  /** Each line read on its own. */
  function ReadLines(lines: seq<string>): (rs: seq<Result<FileDiff, Failure>>)
    ensures |rs| == |lines| && forall i :: 0 <= i < |lines| ==> rs[i] == ParseLine(lines[i])
  {
    seq(|lines|, i requires 0 <= i < |lines| => ParseLine(lines[i]))
  }

  /** Reading the lines one after the other; the first line that fails stops the reading. */
  function ParseLines(lines: seq<string>): Result<seq<FileDiff>, Failure>
  {
    Collect(ReadLines(lines))
  }

  /**
   * The file list of `get_changed_files`: none for empty output,
   * otherwise one record per line of the output with surrounding
   * whitespace stripped.
   */
  function ParseOutput(output: string): Result<seq<FileDiff>, Failure>
  {
    if output == "" then Ok([]) else ParseLines(Split(Strip(output), '\n'))
  }

  /**
   * Reading fails exactly when some line fails, with the first failing
   * line's error; otherwise there is one record per line, in order.
   */
  lemma ParseLinesMeaning(lines: seq<string>)
    ensures ParseLines(lines).Ok? <==> forall i :: 0 <= i < |lines| ==> ParseLine(lines[i]).Ok?
    ensures ParseLines(lines).Ok? ==> (|ParseLines(lines).value| == |lines|
      && forall i :: 0 <= i < |lines| ==> ParseLines(lines).value[i] == ParseLine(lines[i]).value)
    ensures ParseLines(lines).Err? ==> exists i :: (0 <= i < |lines|
      && ParseLine(lines[i]) == Err(ParseLines(lines).error)
      && forall j :: 0 <= j < i ==> ParseLine(lines[j]).Ok?)
  {
    CollectMeaning(ReadLines(lines));
  }

  /** `get_changed_files` once `git diff` has produced `output`. */
  method GetChangedFiles(output: string) returns (r: Result<seq<FileDiff>, Failure>)
    ensures r == ParseOutput(output)
  {
    if output == "" {
      return Ok([]);
    }
    var lines := Split(Strip(output), '\n');
    ghost var rs := ReadLines(lines);
    var files: seq<FileDiff> := [];
    for i := 0 to |lines|
      invariant Collect(rs[..i]) == Ok(files)
    {
      var parsed := ParseLine(lines[i]);
      assert parsed == rs[i];
      CollectNext(rs, i);
      if parsed.Err? {
        CollectStaysFailed(rs, i + 1);
        return Err(parsed.error);
      }
      files := files + [parsed.value];
    }
    assert rs[..|lines|] == rs;
    return Ok(files);
  }

  /** The lines git writes for the given files and scores, one per file. */
  function NameStatusLines(scores: seq<string>, files: seq<FileDiff>): (lines: seq<string>)
    requires |scores| == |files|
    ensures |lines| == |files| && forall i :: 0 <= i < |files| ==> lines[i] == NameStatusLine(scores[i], files[i])
  {
    seq(|files|, i requires 0 <= i < |files| => NameStatusLine(scores[i], files[i]))
  }

  /** The output git writes for the given files and scores: one line each, each ended by a newline. */
  function NameStatusOutput(scores: seq<string>, files: seq<FileDiff>): string
    requires |scores| == |files|
  {
    if files == [] then "" else Join(NameStatusLines(scores, files), "\n") + "\n"
  }

  /** Fields free of newlines join into a line free of newlines. */
  lemma {:induction false} JoinNoNewline(fields: seq<string>)
    requires forall i :: 0 <= i < |fields| ==> '\n' !in fields[i]
    ensures '\n' !in Join(fields, "\t")
  {
    if |fields| > 1 {
      JoinNoNewline(fields[1..]);
    }
  }

  /** The fields of a well-formed file join into a line without newlines that reads back as the file. */
  lemma LineReads(score: string, f: FileDiff)
    requires Writable(score, f)
    ensures '\n' !in NameStatusLine(score, f) && ParseLine(NameStatusLine(score, f)) == Ok(f)
  {
    ParseLineRoundTrip(score, f);
    JoinNoNewline(Fields(score, f));
  }

  /** A file's line starts with its status and ends with its path. */
  lemma LineEnds(score: string, f: FileDiff)
    ensures var line := NameStatusLine(score, f);
      && line != [] && line[0] == f.status
      && (f.path != [] ==> line[|line| - 1] == f.path[|f.path| - 1])
  {
    JoinStarts(Fields(score, f), "\t");
    JoinEnds(Fields(score, f), "\t");
  }

  /** A sequence ending with a non-empty `t` ends with `t`'s last element. */
  lemma SuffixLast<T>(s: seq<T>, t: seq<T>)
    requires t != [] && |s| >= |t| && s[|s| - |t|..] == t
    ensures s[|s| - 1] == t[|t| - 1]
  {
    assert s[|s| - |t|..][|t| - 1] == s[|s| - 1];
  }

  /** No status letter is whitespace. */
  lemma StatusNotSpace(c: char)
    requires ValidStatus(c)
    ensures !IsSpace(c)
  {
  }

  /** Stripping text that ends in one newline and has no whitespace at either end otherwise. */
  lemma StripNewline(s: string)
    requires s != [] && !IsSpace(s[0]) && !IsSpace(s[|s| - 1])
    ensures Strip(s + "\n") == s
  {
    var t := s + "\n";
    assert TrimStart(t, IsSpace) == t;
    assert IsSpace(t[|t| - 1]) && t[..|t| - 1] == s;
    assert TrimEnd(t, IsSpace) == TrimEnd(s, IsSpace);
  }

  /** The text of the output's lines starts with the first file's status. */
  lemma TextFirst(scores: seq<string>, files: seq<FileDiff>)
    requires |scores| == |files| && files != []
    ensures var text := Join(NameStatusLines(scores, files), "\n"); text != [] && text[0] == files[0].status
  {
    JoinStarts(NameStatusLines(scores, files), "\n");
    LineEnds(scores[0], files[0]);
  }

  /** The text of the output's lines ends with the last file's path. */
  lemma TextLast(scores: seq<string>, files: seq<FileDiff>)
    requires |scores| == |files| && files != [] && files[|files| - 1].path != []
    ensures var text := Join(NameStatusLines(scores, files), "\n"); var last := files[|files| - 1].path;
      text != [] && text[|text| - 1] == last[|last| - 1]
  {
    var lines := NameStatusLines(scores, files);
    var n := |files| - 1;
    JoinEnds(lines, "\n");
    LineEnds(scores[n], files[n]);
    SuffixLast(Join(lines, "\n"), lines[n]);
  }

  /**
   * The text of the output's lines neither starts nor ends with
   * whitespace, so stripping the output removes only its final newline.
   */
  lemma OutputStrips(scores: seq<string>, files: seq<FileDiff>)
    requires |scores| == |files| && files != [] && files[0].Valid()
    requires var last := files[|files| - 1].path; last != [] && !IsSpace(last[|last| - 1])
    ensures var text := Join(NameStatusLines(scores, files), "\n"); Strip(text + "\n") == text
  {
    TextFirst(scores, files);
    TextLast(scores, files);
    StatusNotSpace(files[0].status);
    StripNewline(Join(NameStatusLines(scores, files), "\n"));
  }

  /** Stripping the output and splitting it at newlines gives back its lines. */
  lemma OutputLines(scores: seq<string>, files: seq<FileDiff>)
    requires |scores| == |files| && files != []
    requires forall i :: 0 <= i < |files| ==> Writable(scores[i], files[i])
    requires var last := files[|files| - 1].path; last != [] && !IsSpace(last[|last| - 1])
    ensures Split(Strip(NameStatusOutput(scores, files)), '\n') == NameStatusLines(scores, files)
  {
    var lines := NameStatusLines(scores, files);
    forall i | 0 <= i < |files|
      ensures '\n' !in lines[i]
    {
      LineReads(scores[i], files[i]);
    }
    OutputStrips(scores, files);
    SplitJoin(lines, '\n');
  }

  /**
   * Reading the output git writes gives back the files it was written
   * for, provided the last path does not end in whitespace (the output is
   * stripped as a whole, so that whitespace would be lost).
   */
  lemma ParseOutputRoundTrip(scores: seq<string>, files: seq<FileDiff>)
    requires |scores| == |files|
    requires forall i :: 0 <= i < |files| ==> Writable(scores[i], files[i])
    requires files != [] ==> var last := files[|files| - 1].path; last != [] && !IsSpace(last[|last| - 1])
    ensures ParseOutput(NameStatusOutput(scores, files)) == Ok(files)
  {
    if files != [] {
      OutputLines(scores, files);
      LinesRead(scores, files);
    }
  }

  /** Reading the lines git writes gives back the files. */
  lemma LinesRead(scores: seq<string>, files: seq<FileDiff>)
    requires |scores| == |files|
    requires forall i :: 0 <= i < |files| ==> Writable(scores[i], files[i])
    ensures ParseLines(NameStatusLines(scores, files)) == Ok(files)
  {
    var lines := NameStatusLines(scores, files);
    forall i | 0 <= i < |files|
      ensures ParseLine(lines[i]) == Ok(files[i])
    {
      LineReads(scores[i], files[i]);
    }
    ParseLinesMeaning(lines);
    assert ParseLines(lines).value == files;
  }

  /** The paths of the files whose status is `D` (`deleted` true) or of the others (`deleted` false), in order. */
  function PathsWhere(files: seq<FileDiff>, deleted: bool): (paths: seq<string>)
    ensures |paths| <= |files|
  {
    if files == [] then []
    else
      var f := files[|files| - 1];
      PathsWhere(files[..|files| - 1], deleted) + (if (f.status == 'D') == deleted then [f.path] else [])
  }

  /** The paths of the files, in order. */
  function Paths(files: seq<FileDiff>): (paths: seq<string>)
    ensures |paths| == |files| && forall i :: 0 <= i < |files| ==> paths[i] == files[i].path
  {
    seq(|files|, i requires 0 <= i < |files| => files[i].path)
  }

  /** Selecting from a concatenation selects from each part, in order. */
  lemma {:induction false} PathsWhereAppend(a: seq<FileDiff>, b: seq<FileDiff>, deleted: bool)
    ensures PathsWhere(a + b, deleted) == PathsWhere(a, deleted) + PathsWhere(b, deleted)
    decreases |b|
  {
    if b == [] {
      assert a + b == a;
    } else {
      var n := |b| - 1;
      assert (a + b)[..|a + b| - 1] == a + b[..n];
      PathsWhereAppend(a, b[..n], deleted);
    }
  }

  /** The two lists hold every path exactly once between them. */
  lemma {:induction false} PathsWhereCount(files: seq<FileDiff>)
    ensures multiset(PathsWhere(files, true)) + multiset(PathsWhere(files, false)) == multiset(Paths(files))
  {
    if files != [] {
      var n := |files| - 1;
      PathsWhereCount(files[..n]);
      assert Paths(files) == Paths(files[..n]) + [files[n].path];
    }
  }

  /** Between them the two lists have one entry per file. */
  lemma PathsWhereLength(files: seq<FileDiff>)
    ensures |PathsWhere(files, true)| + |PathsWhere(files, false)| == |files|
  {
    PathsWhereCount(files);
    assert |multiset(Paths(files))| == |files|;
  }

  /** Deleted files' paths go to the first list, all others to the second. */
  lemma {:induction false} PathsWhereMembers(files: seq<FileDiff>, deleted: bool)
    ensures forall p :: p in PathsWhere(files, deleted) <==>
      exists i :: 0 <= i < |files| && (files[i].status == 'D') == deleted && files[i].path == p
  {
    if files != [] {
      var n := |files| - 1;
      PathsWhereMembers(files[..n], deleted);
      assert forall i :: 0 <= i < n ==> files[..n][i] == files[i];
    }
  }

  /** The loop of `create_branch_with_files` that sorts the paths into those to remove and those to check out. */
  method PartitionByDeletion(files: seq<FileDiff>) returns (deletedFiles: seq<string>, checkoutFiles: seq<string>)
    ensures deletedFiles == PathsWhere(files, true) && checkoutFiles == PathsWhere(files, false)
  {
    deletedFiles := [];
    checkoutFiles := [];
    for i := 0 to |files|
      invariant deletedFiles == PathsWhere(files[..i], true)
      invariant checkoutFiles == PathsWhere(files[..i], false)
    {
      assert files[..i + 1][..i] == files[..i];
      if files[i].status == 'D' {
        deletedFiles := deletedFiles + [files[i].path];
      } else {
        checkoutFiles := checkoutFiles + [files[i].path];
      }
    }
    assert files[..|files|] == files;
  }

  /** The message of a split branch's commit: `file` in the singular only for a count of one. */
  function CommitMessage(source: string, fileCount: int): (msg: string)
  {
    "Part of split from " + source + " (" + IntToString(fileCount) + " file" + (if fileCount != 1 then "s" else "") + ")"
  }

  /**
   * The message ends in `files)` exactly when the count is not one, and
   * in `file)` otherwise.
   */
  lemma CommitMessagePlural(source: string, fileCount: int)
    ensures var msg := CommitMessage(source, fileCount);
      |msg| >= 2 && (msg[|msg| - 2] == 's' <==> fileCount != 1)
  {
  }

  /** `p + x == p + y` only when `x == y`. */
  lemma CancelPrefix<T>(p: seq<T>, x: seq<T>, y: seq<T>)
    requires p + x == p + y
    ensures x == y
  {
    assert x == (p + x)[|p|..];
  }

  /** Counts written before a space give the same text only when they are equal. */
  lemma DigitsBeforeSpace(m: int, n: int, x: string, y: string)
    ensures IntToString(m) + [' '] + x == IntToString(n) + [' '] + y ==> m == n
  {
    var a := IntToString(m);
    var b := IntToString(n);
    if a + [' '] + x == b + [' '] + y {
      assert ' ' !in a && ' ' !in b by {
        assert a[0] == '-' || IsDigit(a[0]);
        assert b[0] == '-' || IsDigit(b[0]);
      }
      IndexOfJoined(a, ' ', x);
      IndexOfJoined(b, ' ', y);
      assert a == (a + [' '] + x)[..|a|];
      assert b == (b + [' '] + y)[..|b|];
      ParseIntRoundTrip(m);
      ParseIntRoundTrip(n);
    }
  }

  /** Commits of groups of different sizes from one source have different messages. */
  lemma CommitMessagesDistinct(source: string, m: int, n: int)
    requires m != n
    ensures CommitMessage(source, m) != CommitMessage(source, n)
  {
    var pre := "Part of split from " + source + " (";
    var x := "file" + (if m != 1 then "s" else "") + ")";
    var y := "file" + (if n != 1 then "s" else "") + ")";
    assert CommitMessage(source, m) == pre + (IntToString(m) + [' '] + x);
    assert CommitMessage(source, n) == pre + (IntToString(n) + [' '] + y);
    DigitsBeforeSpace(m, n, x, y);
    if CommitMessage(source, m) == CommitMessage(source, n) {
      CancelPrefix(pre, IntToString(m) + [' '] + x, IntToString(n) + [' '] + y);
    }
  }
}
