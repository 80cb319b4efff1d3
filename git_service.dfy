/** backend/services/git.py: listing a repository's branches, reading a
    branch's commit history and comparing two branches file by file.
    What git prints, what `git show` returns and what `difflib` produces are
    parameters. */
module GitService {
  import opened PyStr
  import opened Outcomes

  // ---------------------------------------------------------------------
  // get_branches
  // ---------------------------------------------------------------------

  const NoRepoPrefix := "Repository path does not exist: "
  const NotGitPrefix := "Not a valid Git repository: "
  const BranchesErrorPrefix := "Error retrieving branches: "

  /** One line of `git branch --list` cleaned of whitespace and its `* ` marker. */
  function BranchName(line: string): (name: string)
    ensures IsTrimmed(name)
  {
    Strip(LStripChars(Strip(line), {'*', ' '}))
  }

  /** The names of the non-empty lines of a listing, in order. */
  function BranchNames(lines: seq<string>): (names: seq<string>)
    ensures |names| <= |lines|
    ensures forall x :: x in names ==> IsTrimmed(x)
  {
    var names := MapNonEmpty(lines, BranchName);
    assert forall x :: x in names ==> IsTrimmed(x) by {
      forall x | x in names ensures IsTrimmed(x) {
        MapNonEmptyMember(lines, BranchName, x);
      }
    }
    names
  }

  /** `get_branches(repo_path)`: `disk` is what `os.path` sees, `listing`
      how `git branch --list` ended. */
  function GetBranches(repoPath: string, disk: Disk, listing: Run): (r: Result<seq<string>, Raised>)
    ensures !disk.IsDir(repoPath) ==> r == Failure(Exception(NoRepoPrefix + repoPath))
    ensures disk.IsDir(repoPath) && !disk.IsDir(PathJoin(repoPath, ".git"))
      ==> r == Failure(Exception(NotGitPrefix + repoPath))
    ensures disk.IsDir(repoPath) && disk.IsDir(PathJoin(repoPath, ".git")) && listing.Failed?
      ==> r == Failure(Exception(BranchesErrorPrefix + Strip(listing.stderr)))
    ensures r.Success? <==> disk.IsDir(repoPath) && disk.IsDir(PathJoin(repoPath, ".git")) && listing.Completed?
    ensures r.Success? ==> r.value == BranchNames(Split(Strip(listing.stdout), '\n'))
    ensures r.Success? ==> |r.value| <= |Split(Strip(listing.stdout), '\n')|
    ensures r.Success? ==> forall x :: x in r.value ==> IsTrimmed(x)
  {
    if !disk.Exists(repoPath) || !disk.IsDir(repoPath) then Failure(Exception(NoRepoPrefix + repoPath))
    else
      var gitDir := PathJoin(repoPath, ".git");
      if !disk.Exists(gitDir) || !disk.IsDir(gitDir) then Failure(Exception(NotGitPrefix + repoPath))
      else match listing
        case Failed(err) => Failure(Exception(BranchesErrorPrefix + Strip(err)))
        case Completed(out) =>
          Success(BranchNames(Split(Strip(out), '\n')))
  }

  /** The current branch (`* name`), any other (`  name`) and a first line
      whose indent the whole-output `strip()` removed (`name`) all give `name`. */
  lemma BranchLineName(marker: string, name: string)
    requires marker == "* " || marker == "  " || marker == ""
    requires name != [] && IsTrimmed(name) && name[0] != '*'
    ensures BranchName(marker + name) == name
  {
    StripTrimmed(name);
    if marker == "* " {
      StripAfterMarker(marker, name);
      LStripMarker(marker, name);
    } else {
      if marker == "  " {
        StripAfterMarker(marker, name);
      } else {
        assert marker + name == name;
      }
      LStripMarker("", name);
      assert "" + name == name;
    }
  }

  /** The lines git prints for `names`, each behind its marker. */
  function ListingLines(markers: seq<string>, names: seq<string>): (lines: seq<string>)
    requires |markers| == |names|
    ensures |lines| == |names|
  {
    seq(|names|, k requires 0 <= k < |names| => markers[k] + names[k])
  }

  /** Reading back a listing gives the branch names in the order git printed them. */
  lemma ListingNamesRoundTrip(markers: seq<string>, names: seq<string>)
    requires |markers| == |names|
    requires forall k :: 0 <= k < |names| ==> markers[k] == "* " || markers[k] == "  " || markers[k] == ""
    requires forall k :: 0 <= k < |names| ==> names[k] != [] && IsTrimmed(names[k]) && names[k][0] != '*'
    ensures BranchNames(ListingLines(markers, names)) == names
  {
    var lines := ListingLines(markers, names);
    forall k | 0 <= k < |lines| ensures lines[k] != [] && BranchName(lines[k]) == names[k] {
      BranchLineName(markers[k], names[k]);
    }
    MapNonEmptyAll(lines, BranchName);
  }

  /** Reading back the whole output of `git branch`, one line per branch and a
      final newline, gives the branch names in the order git printed them. */
  lemma ListingOutputRoundTrip(markers: seq<string>, names: seq<string>)
    requires |markers| == |names|
    requires forall k :: 0 <= k < |names| ==> markers[k] == "* " || markers[k] == "  "
    requires forall k :: 0 <= k < |names| ==> names[k] != [] && IsTrimmed(names[k]) && names[k][0] != '*'
    requires forall k :: 0 <= k < |names| ==> '\n' !in names[k]
    ensures BranchNames(Split(Strip(Join(ListingLines(markers, names), "\n") + "\n"), '\n')) == names
  {
    var lines := ListingLines(markers, names);
    if names == [] {
      assert Join(lines, "\n") + "\n" == "\n";
      assert Strip("\n") == [];
      assert Split([], '\n') == [[]];
    } else {
      // the whole-output strip() takes the indent off the first line only
      var markers' := Unindented(markers, names);
      StripListing(if markers[0] == "* " then "" else "  ", lines, ListingLines(markers', names));
      SplitListing(markers', names);
    }
  }

  /** Splitting the joined lines at newlines and reading each back. */
  lemma SplitListing(markers: seq<string>, names: seq<string>)
    requires |markers| == |names| >= 1
    requires forall k :: 0 <= k < |names| ==> markers[k] == "* " || markers[k] == "  " || markers[k] == ""
    requires forall k :: 0 <= k < |names| ==> names[k] != [] && IsTrimmed(names[k]) && names[k][0] != '*'
    requires forall k :: 0 <= k < |names| ==> '\n' !in names[k]
    ensures BranchNames(Split(Join(ListingLines(markers, names), "\n"), '\n')) == names
  {
    var lines := ListingLines(markers, names);
    forall k | 0 <= k < |lines| ensures '\n' !in lines[k] {
      assert lines[k] == markers[k] + names[k];
    }
    SplitJoin(lines, '\n');
    ListingNamesRoundTrip(markers, names);
  }

  /** The markers once the first line's indent is gone: what the lines look
      like after `strip()` of the whole output. */
  lemma Unindented(markers: seq<string>, names: seq<string>) returns (markers': seq<string>)
    requires |markers| == |names| >= 1
    requires forall k :: 0 <= k < |names| ==> markers[k] == "* " || markers[k] == "  "
    requires forall k :: 0 <= k < |names| ==> names[k] != [] && IsTrimmed(names[k]) && names[k][0] != '*'
    ensures |markers'| == |names|
    ensures forall k :: 0 <= k < |names| ==> markers'[k] == "* " || markers'[k] == "  " || markers'[k] == ""
    ensures var lines, lines' := ListingLines(markers, names), ListingLines(markers', names);
      && lines[0] == (if markers[0] == "* " then "" else "  ") + lines'[0]
      && lines[1..] == lines'[1..]
      && lines'[0] != [] && !IsSpace(lines'[0][0])
      && var l := lines'[|lines'| - 1]; l != [] && !IsSpace(l[|l| - 1])
  {
    markers' := markers[0 := if markers[0] == "* " then "* " else ""];
    var lines, lines' := ListingLines(markers, names), ListingLines(markers', names);
    var last := |names| - 1;
    assert lines'[0][0] == (if markers[0] == "* " then '*' else names[0][0]);
    assert lines'[last][|lines'[last]| - 1] == names[last][|names[last]| - 1];
    assert lines[1..] == lines'[1..];
  }

  /** `strip()` of the joined listing lines and final newline: only the first
      line's indent and the newline go. */
  lemma StripListing(front: string, lines: seq<string>, lines': seq<string>)
    requires front == "" || front == "  "
    requires |lines| == |lines'| >= 1
    requires lines[0] == front + lines'[0] && lines[1..] == lines'[1..]
    requires lines'[0] != [] && !IsSpace(lines'[0][0])
    requires var l := lines'[|lines'| - 1]; l != [] && !IsSpace(l[|l| - 1])
    ensures Strip(Join(lines, "\n") + "\n") == Join(lines', "\n")
  {
    var text := Join(lines', "\n");
    if |lines| > 1 {
      JoinUnfold(lines, "\n");
      JoinUnfold(lines', "\n");
    }
    assert Join(lines, "\n") == front + text;
    assert text[..|lines'[0]|] == lines'[0];
    JoinEnd(lines', "\n");
    StripAround(front, text, "\n");
  }

  /** Names come out in the order their lines were printed. */
  lemma BranchNamesAppend(a: seq<string>, b: seq<string>)
    ensures BranchNames(a + b) == BranchNames(a) + BranchNames(b)
  {
    MapNonEmptyAppend(a, b, BranchName);
  }

  /** A repository with no branch printed lists none. */
  lemma BlankListingIsEmpty(repoPath: string, disk: Disk, out: string)
    requires disk.IsDir(repoPath) && disk.IsDir(PathJoin(repoPath, ".git"))
    requires forall i :: 0 <= i < |out| ==> IsSpace(out[i])
    ensures GetBranches(repoPath, disk, Completed(out)) == Success([])
  {
    assert Split(Strip(out), '\n') == [[]];
  }

  // ---------------------------------------------------------------------
  // commit_info
  // ---------------------------------------------------------------------

  const HistoryErrorPrefix := "Error retrieving commit history: "

  /** One entry of the history, from `--pretty=format:%H|%an|%ad|%s`. */
  datatype CommitRecord = CommitRecord(hash: string, author: string, date: string, message: string)

  /** The line `git log` prints for a commit; the subject may itself hold `|`. */
  function FormatCommit(c: CommitRecord): string {
    c.hash + "|" + c.author + "|" + c.date + "|" + c.message
  }

  /** `line.split("|", 3)` read as a commit when the line is not blank and gives four fields. */
  function ParseCommitLine(line: string): (r: Option<CommitRecord>)
    ensures r.Some? ==> Strip(line) != []
    ensures r.Some? ==> '|' !in r.value.hash && '|' !in r.value.author && '|' !in r.value.date
  {
    if Strip(line) == [] then None
    else
      var parts := SplitN(line, '|', 3);
      if |parts| == 4 then Some(CommitRecord(parts[0], parts[1], parts[2], parts[3])) else None
  }

  /** A line is skipped exactly when it is blank or holds fewer than three `|`;
      a line read as a commit is that commit's printed form, with no `|`
      before its subject. */
  lemma ParseCommitLineSpec(line: string)
    ensures ParseCommitLine(line).None? <==> Strip(line) == [] || Count(line, '|') < 3
    ensures ParseCommitLine(line).Some? ==> var c := ParseCommitLine(line).value;
      FormatCommit(c) == line && '|' !in c.hash && '|' !in c.author && '|' !in c.date
  {
    SplitNParts(line, '|', 3);
    if ParseCommitLine(line).Some? {
      var parts := SplitN(line, '|', 3);
      SplitNJoin(line, '|', 3);
      JoinFour(parts, "|");
    }
  }

  function Found(o: Option<CommitRecord>): seq<CommitRecord> {
    if o.Some? then [o.value] else []
  }

  /** The records `parse` reads from `lines`, in order. */
  function Collect(lines: seq<string>, parse: string -> Option<CommitRecord>): (items: seq<CommitRecord>)
    ensures |items| <= |lines|
  {
    if lines == [] then []
    else Collect(lines[..|lines| - 1], parse) + Found(parse(lines[|lines| - 1]))
  }

  /** Collecting over a log is collecting over its parts. */
  lemma {:induction false} CollectAppend(a: seq<string>, b: seq<string>, parse: string -> Option<CommitRecord>)
    ensures Collect(a + b, parse) == Collect(a, parse) + Collect(b, parse)
    decreases |b|
  {
    if b == [] {
      assert a + b == a;
    } else {
      var n := |b| - 1;
      assert (a + b)[..|a + b| - 1] == a + b[..n];
      assert (a + b)[|a + b| - 1] == b[n];
      CollectAppend(a, b[..n], parse);
    }
  }

  /** A record is collected exactly when some line parses to it. */
  lemma {:induction false} CollectMember(lines: seq<string>, parse: string -> Option<CommitRecord>, c: CommitRecord)
    ensures c in Collect(lines, parse) <==> exists l :: l in lines && parse(l) == Some(c)
  {
    if lines != [] {
      var n := |lines| - 1;
      CollectMember(lines[..n], parse, c);
      assert forall l :: l in lines <==> l in lines[..n] || l == lines[n];
    }
  }

  /** The history `commit_info` reads from the lines `git log` printed. */
  function ParseLog(lines: seq<string>): (commits: seq<CommitRecord>)
    ensures |commits| <= |lines|
  {
    Collect(lines, ParseCommitLine)
  }

  /** Reading one more line of the log. */
  lemma ParseLogStep(lines: seq<string>, i: nat)
    requires i < |lines|
    ensures ParseLog(lines[..i + 1]) == ParseLog(lines[..i]) + Found(ParseCommitLine(lines[i]))
  {
    assert lines[..i + 1][..i] == lines[..i];
  }

  /** `commit_info(branch, repo_path)`, given how `git log` ended. */
  method CommitInfo(log: Run) returns (r: Result<seq<CommitRecord>, Raised>)
    ensures log.Failed? ==> r == Failure(Exception(HistoryErrorPrefix + Strip(log.stderr)))
    ensures log.Completed? ==> r == Success(ParseLog(Split(Strip(log.stdout), '\n')))
  {
    if log.Failed? {
      return Failure(Exception(HistoryErrorPrefix + Strip(log.stderr)));
    }
    var commits := ReadCommits(Split(Strip(log.stdout), '\n'));
    return Success(commits);
  }

  /** The loop of `commit_info` over the lines of the log. */
  method ReadCommits(lines: seq<string>) returns (commits: seq<CommitRecord>)
    ensures commits == ParseLog(lines)
  {
    commits := [];
    var i := 0;
    while i < |lines|
      invariant 0 <= i <= |lines|
      invariant commits == ParseLog(lines[..i])
    {
      var found := ReadCommit(lines[i]);
      ParseLogStep(lines, i);
      commits := commits + found;
      i := i + 1;
    }
    assert lines[..i] == lines;
  }

  /** One pass of that loop: the commit a line holds, if any. */
  method ReadCommit(line: string) returns (found: seq<CommitRecord>)
    ensures found == Found(ParseCommitLine(line))
  {
    found := [];
    if Strip(line) != [] {
      var parts := SplitN(line, '|', 3);
      if |parts| == 4 {
        found := [CommitRecord(parts[0], parts[1], parts[2], parts[3])];
      }
    }
  }

  /** Every record read comes from one line and has no `|` before its subject. */
  lemma ParseLogFields(lines: seq<string>)
    ensures forall c :: c in ParseLog(lines) ==>
      FormatCommit(c) in lines && '|' !in c.hash && '|' !in c.author && '|' !in c.date
  {
    forall c | c in ParseLog(lines)
      ensures FormatCommit(c) in lines && '|' !in c.hash && '|' !in c.author && '|' !in c.date
    {
      CollectMember(lines, ParseCommitLine, c);
      var l :| l in lines && ParseCommitLine(l) == Some(c);
      ParseCommitLineSpec(l);
    }
  }

  /** Reading a line made of a separator-free field, `sep` and the rest. */
  lemma SplitNField(a: string, sep: char, rest: string, n: nat)
    requires sep !in a && n > 0
    ensures SplitN(a + [sep] + rest, sep, n) == [a] + SplitN(rest, sep, n - 1)
  {
    var s := a + [sep] + rest;
    IndexOfAfter(a, sep, rest);
    assert s[..|a|] == a && s[|a| + 1..] == rest;
  }

  /** The printed form of a commit splits back into its four fields. */
  lemma CommitFields(c: CommitRecord)
    requires '|' !in c.hash && '|' !in c.author && '|' !in c.date
    ensures SplitN(FormatCommit(c), '|', 3) == [c.hash, c.author, c.date, c.message]
  {
    var tail2 := c.date + ['|'] + c.message;
    var tail1 := c.author + ['|'] + tail2;
    FormatCommitFields(c);
    SplitNField(c.hash, '|', tail1, 3);
    SplitNField(c.author, '|', tail2, 2);
    SplitNField(c.date, '|', c.message, 1);
    SplitNZero(c.message, '|');
    FieldsInOrder(SplitN(FormatCommit(c), '|', 3), SplitN(tail1, '|', 2), SplitN(tail2, '|', 1),
                  SplitN(c.message, '|', 0), c.hash, c.author, c.date, c.message);
  }

  // Proof step: the four pieces of a printed commit, given as values.
  lemma FieldsInOrder(p1: seq<string>, p2: seq<string>, p3: seq<string>, p4: seq<string>,
                      a: string, b: string, d: string, m: string)
    requires p1 == [a] + p2 && p2 == [b] + p3 && p3 == [d] + p4 && p4 == [m]
    ensures p1 == [a, b, d, m]
  {
  }

  lemma FormatCommitFields(c: CommitRecord)
    ensures FormatCommit(c) == c.hash + ['|'] + (c.author + ['|'] + (c.date + ['|'] + c.message))
  {
  }

  /** The printed form of a commit is never blank: it holds a `|`. */
  lemma CommitNotBlank(c: CommitRecord)
    ensures Strip(FormatCommit(c)) != []
  {
    var line := FormatCommit(c);
    assert line[|c.hash|] == '|';
  }

  /** A commit whose hash, author and date hold no `|` reads back unchanged. */
  lemma CommitRoundTrip(c: CommitRecord)
    requires '|' !in c.hash && '|' !in c.author && '|' !in c.date
    ensures ParseCommitLine(FormatCommit(c)) == Some(c)
  {
    CommitFields(c);
    CommitNotBlank(c);
  }

  function FormatLog(cs: seq<CommitRecord>): (lines: seq<string>)
    ensures |lines| == |cs|
    ensures forall k :: 0 <= k < |cs| ==> lines[k] == FormatCommit(cs[k])
  {
    seq(|cs|, k requires 0 <= k < |cs| => FormatCommit(cs[k]))
  }

  /** The history a branch printed is the history `commit_info` reads. */
  lemma {:induction false} LogRoundTrip(cs: seq<CommitRecord>)
    requires forall k :: 0 <= k < |cs| ==> '|' !in cs[k].hash && '|' !in cs[k].author && '|' !in cs[k].date
    ensures ParseLog(FormatLog(cs)) == cs
  {
    if cs != [] {
      var n := |cs| - 1;
      var lines := FormatLog(cs);
      FormatLogPrefix(cs, n);
      LogRoundTrip(cs[..n]);
      CommitRoundTrip(cs[n]);
      ParseLogStep(lines, n);
      LastOf(lines, n);
      LastOf(cs, n);
    }
  }

  lemma FormatLogPrefix(cs: seq<CommitRecord>, n: nat)
    requires n < |cs|
    ensures FormatLog(cs)[..n] == FormatLog(cs[..n]) && FormatLog(cs)[n] == FormatCommit(cs[n])
  {
  }

  // Proof step: a sequence is its prefix plus its last element.
  lemma LastOf<T>(xs: seq<T>, n: nat)
    requires n == |xs| - 1
    ensures xs[..n + 1] == xs && xs[..n] + [xs[n]] == xs
  {
  }

  // ---------------------------------------------------------------------
  // get_file_diff
  // ---------------------------------------------------------------------

  /** What the endpoint reports for one changed file. */
  datatype FileChange = FileChange(
    filePath: string, oldText: string, newText: string, addedLines: seq<nat>, removedLines: seq<nat>)

  /** A unified-diff line adding text (the `+++` header is not one). */
  predicate IsAddedLine(line: string)
    ensures IsAddedLine(line) ==> line != [] && line[0] == '+'
  {
    "+" <= line && !("+++" <= line)
  }

  /** A unified-diff line removing text (the `---` header is not one). */
  predicate IsRemovedLine(line: string)
    ensures IsRemovedLine(line) ==> line != [] && line[0] == '-'
  {
    "-" <= line && !("---" <= line)
  }

  /** The 1-based positions in `diff` of the lines `keep` selects, ascending. */
  function Positions(diff: seq<string>, keep: string -> bool): (r: seq<nat>)
    ensures forall i :: 0 <= i < |r| ==> 1 <= r[i] <= |diff| && keep(diff[r[i] - 1])
    ensures forall k :: 1 <= k <= |diff| && keep(diff[k - 1]) ==> k in r
    ensures forall i, j :: 0 <= i < j < |r| ==> r[i] < r[j]
  {
    if diff == [] then []
    else
      var n := |diff| - 1;
      var front := Positions(diff[..n], keep);
      assert forall j :: 0 <= j < n ==> diff[..n][j] == diff[j];
      if keep(diff[n]) then front + [|diff|] else front
  }

  /** `[i + 1 for i, line in enumerate(diff) if line.startswith('+') and not line.startswith('+++')]` */
  function AddedLines(diff: seq<string>): (r: seq<nat>)
    ensures forall i :: 0 <= i < |r| ==> 1 <= r[i] <= |diff| && IsAddedLine(diff[r[i] - 1])
    ensures forall k :: 1 <= k <= |diff| && IsAddedLine(diff[k - 1]) ==> k in r
  {
    Positions(diff, IsAddedLine)
  }

  /** `[i + 1 for i, line in enumerate(diff) if line.startswith('-') and not line.startswith('---')]` */
  function RemovedLines(diff: seq<string>): (r: seq<nat>)
    ensures forall i :: 0 <= i < |r| ==> 1 <= r[i] <= |diff| && IsRemovedLine(diff[r[i] - 1])
    ensures forall k :: 1 <= k <= |diff| && IsRemovedLine(diff[k - 1]) ==> k in r
  {
    Positions(diff, IsRemovedLine)
  }

  /** A position is reported only for a line `keep` selects. */
  lemma PositionSelected(diff: seq<string>, keep: string -> bool, k: nat)
    ensures k in Positions(diff, keep) ==> 1 <= k <= |diff| && keep(diff[k - 1])
  {
  }

  /** No diff line is counted both as added and as removed. */
  lemma AddedRemovedDisjoint(diff: seq<string>)
    ensures forall k :: k in AddedLines(diff) ==> k !in RemovedLines(diff)
  {
    forall k | k in AddedLines(diff)
      ensures k !in RemovedLines(diff)
    {
      PositionSelected(diff, IsAddedLine, k);
      PositionSelected(diff, IsRemovedLine, k);
      var line := diff[k - 1];
      assert line[0] == '+';
    }
  }

  /** The change reported for `path`, or the error of the first `git show` that fails. */
  function ChangeFor(branch1: string, branch2: string, path: string, show: string -> Run,
                     unifiedDiff: (seq<string>, seq<string>) -> seq<string>): (r: Result<FileChange, Raised>)
    ensures r.Success? <==> show(branch1 + ":" + path).Completed? && show(branch2 + ":" + path).Completed?
    ensures show(branch1 + ":" + path).Failed? ==> r == Failure(GitCommandError(show(branch1 + ":" + path).stderr))
    ensures show(branch1 + ":" + path).Completed? && show(branch2 + ":" + path).Failed? ==>
              r == Failure(GitCommandError(show(branch2 + ":" + path).stderr))
    ensures r.Success? ==>
              && r.value.filePath == path
              && r.value.oldText == show(branch1 + ":" + path).stdout
              && r.value.newText == show(branch2 + ":" + path).stdout
    ensures r.Success? ==>
              var diff := unifiedDiff(SplitLines(r.value.oldText), SplitLines(r.value.newText));
              r.value.addedLines == AddedLines(diff) && r.value.removedLines == RemovedLines(diff)
  {
    match show(branch1 + ":" + path)
    case Failed(e) => Failure(GitCommandError(e))
    case Completed(oldBlob) =>
      match show(branch2 + ":" + path)
      case Failed(e) => Failure(GitCommandError(e))
      case Completed(newBlob) =>
        var diff := unifiedDiff(SplitLines(oldBlob), SplitLines(newBlob));
        Success(FileChange(path, oldBlob, newBlob, AddedLines(diff), RemovedLines(diff)))
  }

  /** The changes `change` reports for `paths`, in order, or the first error met. */
  function Changes(paths: seq<string>, change: string -> Result<FileChange, Raised>): (r: Result<seq<FileChange>, Raised>)
    ensures r.Success? <==> forall k :: 0 <= k < |paths| ==> change(paths[k]).Success?
    ensures r.Success? ==>
              && |r.value| == |paths|
              && forall k :: 0 <= k < |paths| ==> r.value[k] == change(paths[k]).value
  {
    if paths == [] then Success([])
    else
      var n := |paths| - 1;
      match Changes(paths[..n], change)
      case Failure(e) => Failure(e)
      case Success(front) =>
        match change(paths[n])
        case Failure(e) => Failure(e)
        case Success(c) => Success(front + [c])
  }

  /** The error raised is that of the first file whose report fails. */
  lemma {:induction false} FirstFailureRaised(paths: seq<string>, i: nat, change: string -> Result<FileChange, Raised>)
    requires i < |paths|
    requires forall k :: 0 <= k < i ==> change(paths[k]).Success?
    requires change(paths[i]).Failure?
    ensures Changes(paths, change) == Failure(change(paths[i]).error)
  {
    var n := |paths| - 1;
    if i < n {
      FirstFailureRaised(paths[..n], i, change);
    } else {
      assert forall k :: 0 <= k < n ==> paths[..n][k] == paths[k];
    }
  }

  /** A failure right after a prefix that succeeded is the error raised. */
  lemma FailureAfterPrefix(paths: seq<string>, i: nat, change: string -> Result<FileChange, Raised>)
    requires i < |paths| && Changes(paths[..i], change).Success? && change(paths[i]).Failure?
    ensures Changes(paths, change) == Failure(change(paths[i]).error)
  {
    forall k | 0 <= k < i
      ensures change(paths[k]).Success?
    {
      assert paths[..i][k] == paths[k];
    }
    FirstFailureRaised(paths, i, change);
  }

  /** Reporting one more file. */
  lemma ChangesStep(paths: seq<string>, i: nat, change: string -> Result<FileChange, Raised>, front: seq<FileChange>)
    requires i < |paths| && Changes(paths[..i], change) == Success(front) && change(paths[i]).Success?
    ensures Changes(paths[..i + 1], change) == Success(front + [change(paths[i]).value])
  {
    assert paths[..i + 1][..i] == paths[..i];
  }

  /** The body of `get_file_diff`'s loop for one changed file. */
  method DiffFile(branch1: string, branch2: string, path: string, show: string -> Run,
                  unifiedDiff: (seq<string>, seq<string>) -> seq<string>) returns (r: Result<FileChange, Raised>)
    ensures r == ChangeFor(branch1, branch2, path, show, unifiedDiff)
  {
    var oldBlob := show(branch1 + ":" + path);
    if oldBlob.Failed? {
      return Failure(GitCommandError(oldBlob.stderr));
    }
    var newBlob := show(branch2 + ":" + path);
    if newBlob.Failed? {
      return Failure(GitCommandError(newBlob.stderr));
    }
    var diff := unifiedDiff(SplitLines(oldBlob.stdout), SplitLines(newBlob.stdout));
    return Success(FileChange(path, oldBlob.stdout, newBlob.stdout, AddedLines(diff), RemovedLines(diff)));
  }

  /** `get_file_diff(branch1, branch2, repo_path)`: `nameOnly` is how
      `git diff --name-only branch1..branch2` ended, `show(rev)` how
      `git show rev` ended, and `unifiedDiff` is `difflib.unified_diff`. */
  method GetFileDiff(branch1: string, branch2: string, nameOnly: Run, show: string -> Run,
                     unifiedDiff: (seq<string>, seq<string>) -> seq<string>) returns (r: Result<seq<FileChange>, Raised>)
    ensures nameOnly.Failed? ==> r == Failure(GitCommandError(nameOnly.stderr))
    ensures nameOnly.Completed? ==>
              r == Changes(SplitLines(nameOnly.stdout), path => ChangeFor(branch1, branch2, path, show, unifiedDiff))
  {
    if nameOnly.Failed? {
      return Failure(GitCommandError(nameOnly.stderr));
    }
    var paths := SplitLines(nameOnly.stdout);
    ghost var change := path => ChangeFor(branch1, branch2, path, show, unifiedDiff);
    var changes: seq<FileChange> := [];
    var i := 0;
    while i < |paths|
      invariant 0 <= i <= |paths|
      invariant Changes(paths[..i], change) == Success(changes)
    {
      var path := paths[i];
      var reported := DiffFile(branch1, branch2, path, show, unifiedDiff);
      if reported.Failure? {
        FailureAfterPrefix(paths, i, change);
        return Failure(reported.error);
      }
      ChangesStep(paths, i, change, changes);
      changes := changes + [reported.value];
      i := i + 1;
    }
    assert paths[..i] == paths;
    return Success(changes);
  }
}
