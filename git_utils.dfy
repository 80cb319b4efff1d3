/** backend/utils/git.py: resolving a version string such as `1.2` or
    `1.2.3` to an existing branch `v/<version>` or `v_/<version>`.
    The output of `git branch --list --all` is a parameter. */
module GitUtils {
  import opened PyStr
  import opened Outcomes

  const FormatMessage: string := "Branch format must be X.Y or X.Y.Z (e.g., 1.2 or 1.2.3)"
  const ListingErrorPrefix: string := "Error retrieving branches: "
  const RemotePrefix: string := "remotes/origin/"

  /** `re.fullmatch(r'\d+\.\d+(\.\d+)?', s)` with ASCII digits, decided by
      splitting at the dots. */
  predicate IsVersion(s: string)
    ensures IsVersion(s) ==> '.' in s
  {
    var parts := Split(s, '.');
    (|parts| == 2 || |parts| == 3) && forall i :: 0 <= i < |parts| ==> IsDigit(parts[i])
  }

  /** The pattern read directly: digits, a dot, digits, and optionally a dot
      and digits once more. */
  ghost predicate MatchesVersionPattern(s: string) {
    exists a: string, b: string :: IsDigit(a) && IsDigit(b) &&
      (s == a + "." + b || exists c: string :: IsDigit(c) && s == a + "." + b + "." + c)
  }

  lemma DigitsHaveNoDot(a: string)
    requires IsDigit(a)
    ensures '.' !in a
  {
    assert forall i :: 0 <= i < |a| ==> a[i] != '.';
  }

  /** The split-based check accepts exactly the strings the pattern matches. */
  lemma VersionIsPattern(s: string)
    ensures IsVersion(s) <==> MatchesVersionPattern(s)
  {
    if IsVersion(s) {
      VersionMatches(s);
    }
    if MatchesVersionPattern(s) {
      var a: string, b: string :| IsDigit(a) && IsDigit(b) &&
        (s == a + "." + b || exists c: string :: IsDigit(c) && s == a + "." + b + "." + c);
      if s == a + "." + b {
        TwoPartVersion(a, b);
      } else {
        var c: string :| IsDigit(c) && s == a + "." + b + "." + c;
        ThreePartVersion(a, b, c);
      }
    }
  }

  lemma VersionMatches(s: string)
    requires IsVersion(s)
    ensures MatchesVersionPattern(s)
  {
    var parts := Split(s, '.');
    JoinSplit(s, '.');
    if |parts| == 2 {
      assert parts == [parts[0], parts[1]];
      JoinTwo(parts[0], parts[1], ".");
      assert IsDigit(parts[0]) && IsDigit(parts[1]) && s == parts[0] + "." + parts[1];
    } else {
      assert parts == [parts[0], parts[1], parts[2]];
      JoinThree(parts[0], parts[1], parts[2], ".");
      assert IsDigit(parts[0]) && IsDigit(parts[1]) && IsDigit(parts[2]);
      assert s == parts[0] + "." + parts[1] + "." + parts[2];
    }
  }

  /** The comprehension's cleaning of one listing line: strip, drop leading
      `*` and space characters, delete every `remotes/origin/`. */
  function ListingEntry(line: string): (entry: string)
    ensures |entry| <= |line|
  {
    Replace(LStripChars(Strip(line), {'*', ' '}), RemotePrefix, "")
  }

  /** One entry per non-blank line, in order. */
  function ListingEntries(lines: seq<string>): (entries: seq<string>)
    ensures |entries| <= |lines|
  {
    if lines == [] then []
    else (if Strip(lines[0]) != [] then [ListingEntry(lines[0])] else []) + ListingEntries(lines[1..])
  }

  /** `existing_branches` for the listing command's standard output. */
  function ExistingBranches(stdout: string): (existing: seq<string>)
    ensures |existing| <= |Split(Strip(stdout), '\n')|
  {
    ListingEntries(Split(Strip(stdout), '\n'))
  }

  /** A name is listed exactly when some non-blank line cleans to it. */
  lemma {:induction false} ListingEntriesMembership(lines: seq<string>, x: string)
    ensures x in ListingEntries(lines) <==> exists l :: l in lines && Strip(l) != [] && ListingEntry(l) == x
    decreases |lines|
  {
    if lines != [] {
      ListingEntriesMembership(lines[1..], x);
      assert forall l :: l in lines <==> l == lines[0] || l in lines[1..];
    }
  }

  lemma CleanMarkedLine(marker: string, y: string)
    requires marker == "* " || marker == "  "
    requires y != [] && IsTrimmed(y) && y[0] != '*'
    ensures LStripChars(Strip(marker + y), {'*', ' '}) == y
  {
    StripAfterMarker(marker, y);
    LStripMarker(if marker == "* " then marker else "", y);
  }

  lemma DeleteRemotePrefix(remote: bool, name: string)
    requires !IsSubstring(RemotePrefix, name)
    ensures Replace((if remote then RemotePrefix else "") + name, RemotePrefix, "") == name
  {
    ReplaceAbsent(name, RemotePrefix, "");
    if remote {
      ReplaceAfterPattern(RemotePrefix, name, "");
    } else {
      assert "" + name == name;
    }
  }

  /** A line as git prints it (`* ` before the current branch, two spaces
      before the others, remote-tracking branches under `remotes/origin/`)
      cleans to the bare branch name. */
  lemma ListingLineNamesBranch(marker: string, remote: bool, name: string)
    requires marker == "* " || marker == "  "
    requires name != [] && IsTrimmed(name) && name[0] != '*'
    requires !IsSubstring(RemotePrefix, name)
    ensures ListingEntry(marker + (if remote then RemotePrefix else "") + name) == name
  {
    var prefix := if remote then RemotePrefix else "";
    ConcatAssoc(marker, prefix, name);
    PrefixedName(remote, name);
    CleanMarkedLine(marker, prefix + name);
    DeleteRemotePrefix(remote, name);
  }

  // Proof step: string concatenation regrouped.
  lemma ConcatAssoc(a: string, b: string, c: string)
    ensures a + b + c == a + (b + c)
  {
  }

  /** `remotes/origin/` in front of a trimmed name keeps it trimmed and
      starting with something other than `*`. */
  lemma PrefixedName(remote: bool, name: string)
    requires name != [] && IsTrimmed(name) && name[0] != '*'
    ensures var y := (if remote then RemotePrefix else "") + name;
      y != [] && IsTrimmed(y) && y[0] != '*'
  {
    var y := (if remote then RemotePrefix else "") + name;
    assert y[|y| - 1] == name[|name| - 1];
    if remote { assert y[0] == 'r'; } else { assert y == name; }
  }

  /** The search loop over the candidates: the first one, in order, that is
      among the existing branches. */
  function FirstPresent(candidates: seq<string>, existing: seq<string>): (r: Option<string>)
    ensures r.Some? ==> r.value in existing
    ensures r.Some? ==> exists k :: 0 <= k < |candidates| && candidates[k] == r.value
                                    && forall j :: 0 <= j < k ==> candidates[j] !in existing
    ensures r.None? <==> forall k :: 0 <= k < |candidates| ==> candidates[k] !in existing
  {
    if candidates == [] then None
    else if candidates[0] in existing then Some(candidates[0])
    else
      var r := FirstPresent(candidates[1..], existing);
      assert r.Some? ==> exists k :: 1 <= k < |candidates| && candidates[k] == r.value
                                     && forall j :: 0 <= j < k ==> candidates[j] !in existing by {
        if r.Some? {
          var k :| 0 <= k < |candidates[1..]| && candidates[1..][k] == r.value
                   && forall j :: 0 <= j < k ==> candidates[1..][j] !in existing;
          assert candidates[k + 1] == r.value;
          assert forall j :: 0 <= j < k + 1 ==> candidates[j] !in existing by {
            forall j | 0 <= j < k + 1 ensures candidates[j] !in existing {
              if j > 0 { assert candidates[j] == candidates[1..][j - 1]; }
            }
          }
        }
      }
      r
  }

  /** `possible_branches` */
  function Candidates(branch: string): seq<string> {
    ["v/" + branch, "v_/" + branch]
  }

  /** The not-found message, which shows `possible_branches` as Python prints a list. */
  function NotFoundMessage(branch: string): string {
    "No matching branch found (checked: ['v/" + branch + "', 'v_/" + branch + "'])"
  }

  /** What `validate_branch_name(branch, repo_path)` returns or raises, with
      `listing` the outcome of `git branch --list --all` in `repo_path`. */
  function BranchFor(branch: string, listing: Run): (r: Result<string, Raised>)
    ensures !IsVersion(branch) ==> r == Failure(ValueError(FormatMessage))
    ensures IsVersion(branch) && listing.Failed? ==>
              r == Failure(Exception(ListingErrorPrefix + Strip(listing.stderr)))
    ensures IsVersion(branch) && listing.Completed? ==> r == PickCandidate(branch, ExistingBranches(listing.stdout))
  {
    if !IsVersion(branch) then Failure(ValueError(FormatMessage))
    else match listing
      case Failed(stderr) => Failure(Exception(ListingErrorPrefix + Strip(stderr)))
      case Completed(stdout) => PickCandidate(branch, ExistingBranches(stdout))
  }

  /** The answer once the existing branches are known: `v/<branch>` when it
      exists, else `v_/<branch>` when that exists, else the not-found error. */
  function PickCandidate(branch: string, existing: seq<string>): (r: Result<string, Raised>)
    ensures r.Success? ==> r.value == "v/" + branch || r.value == "v_/" + branch
    ensures r.Success? ==> r.value in existing
    ensures "v/" + branch !in existing && "v_/" + branch in existing ==> r == Success("v_/" + branch)
    ensures r.Success? <==> "v/" + branch in existing || "v_/" + branch in existing
    ensures "v/" + branch in existing ==> r == Success("v/" + branch)
    ensures r.Failure? ==> r.error == ValueError(NotFoundMessage(branch))
  {
    var candidates := Candidates(branch);
    match FirstPresent(candidates, existing)
    case Some(b) => Success(b)
    case None =>
      assert candidates[0] == "v/" + branch && candidates[1] == "v_/" + branch;
      Failure(ValueError(NotFoundMessage(branch)))
  }

  /** `validate_branch_name(branch, repo_path)`: the format check, the
      listing, and the search over `possible_branches`. */
  method ValidateBranchName(branch: string, listing: Run) returns (r: Result<string, Raised>)
    ensures r == BranchFor(branch, listing)
  {
    if !IsVersion(branch) {
      return Failure(ValueError(FormatMessage));
    }
    match listing {
      case Failed(stderr) =>
        r := Failure(Exception(ListingErrorPrefix + Strip(stderr)));
      case Completed(stdout) =>
        var existing := ExistingBranches(stdout);
        var candidates := Candidates(branch);
        var found := FindFirst(candidates, existing);
        match found {
          case Some(b) => r := Success(b);
          case None => r := Failure(ValueError(NotFoundMessage(branch)));
        }
    }
  }

  /** The `for b in possible_branches` loop. */
  method FindFirst(candidates: seq<string>, existing: seq<string>) returns (r: Option<string>)
    ensures r == FirstPresent(candidates, existing)
  {
    var i := 0;
    while i < |candidates|
      invariant 0 <= i <= |candidates|
      invariant FirstPresent(candidates, existing) == FirstPresent(candidates[i..], existing)
    {
      if candidates[i] in existing {
        return Some(candidates[i]);
      }
      assert candidates[i..][1..] == candidates[i + 1..];
      i := i + 1;
    }
    return None;
  }

  /** A branch that only exists on the remote still resolves: the listing
      line `  remotes/origin/v/<s>` makes `v/<s>` the answer. */
  lemma {:induction false} RemoteOnlyBranchResolves(branch: string, stdout: string)
    requires IsVersion(branch)
    requires "  " + RemotePrefix + ("v/" + branch) in Split(Strip(stdout), '\n')
    ensures BranchFor(branch, Completed(stdout)) == Success("v/" + branch)
  {
    var name := "v/" + branch;
    VersionBranchTrimmed(branch);
    VersionBranchHasNoRemotePrefix(branch);
    RemoteLineNotBlank(name);
    RemoteLineCleans(name);
    LineListed(Split(Strip(stdout), '\n'), "  " + RemotePrefix + name);
  }

  lemma {:induction false} LineListed(lines: seq<string>, line: string)
    requires line in lines && Strip(line) != []
    ensures ListingEntry(line) in ListingEntries(lines)
  {
    ListingEntriesMembership(lines, ListingEntry(line));
  }

  lemma {:induction false} RemoteLineNotBlank(name: string)
    requires name != []
    ensures Strip("  " + RemotePrefix + name) != []
  {
    var line := "  " + RemotePrefix + name;
    assert !IsSpace(line[2]);
  }

  lemma {:induction false} RemoteLineCleans(name: string)
    requires IsTrimmed(name) && name != [] && name[0] == 'v'
    requires !IsSubstring(RemotePrefix, name)
    ensures ListingEntry("  " + RemotePrefix + name) == name
  {
    ListingLineNamesBranch("  ", true, name);
    assert "  " + RemotePrefix + name == "  " + (if true then RemotePrefix else "") + name;
  }

  lemma {:induction false} VersionBranchTrimmed(branch: string)
    requires IsVersion(branch)
    ensures IsTrimmed("v/" + branch)
  {
    var name := "v/" + branch;
    VersionChars(branch);
    assert name[0] == 'v' && name[|name| - 1] == branch[|branch| - 1];
  }

  lemma {:induction false} VersionBranchHasNoRemotePrefix(branch: string)
    requires IsVersion(branch)
    ensures !IsSubstring(RemotePrefix, "v/" + branch)
  {
    var name := "v/" + branch;
    VersionChars(branch);
    assert forall i :: 2 <= i < |name| ==> name[i] == branch[i - 2];
    NoRemotePrefixIn(name);
  }

  /** A version string is made of digits and dots, with a digit at each end. */
  lemma VersionChars(s: string)
    requires IsVersion(s)
    ensures |s| >= 3 && IsDigitChar(s[0]) && IsDigitChar(s[|s| - 1])
    ensures forall i :: 0 <= i < |s| ==> IsDigitChar(s[i]) || s[i] == '.'
  {
    VersionIsPattern(s);
    var a: string, b: string :| IsDigit(a) && IsDigit(b) &&
      (s == a + "." + b || exists c: string :: IsDigit(c) && s == a + "." + b + "." + c);
    DotJoin(a, b);
    if s != a + "." + b {
      var c: string :| IsDigit(c) && s == a + "." + b + "." + c;
      DotJoin(a + "." + b, c);
    }
  }

  // Proof step: two runs of digits and dots joined by a dot.
  lemma DotJoin(x: string, y: string)
    requires x != [] && forall i :: 0 <= i < |x| ==> IsDigitChar(x[i]) || x[i] == '.'
    requires y != [] && forall i :: 0 <= i < |y| ==> IsDigitChar(y[i]) || y[i] == '.'
    ensures var s := x + "." + y;
      && |s| >= 3 && s[0] == x[0] && s[|s| - 1] == y[|y| - 1]
      && forall i :: 0 <= i < |s| ==> IsDigitChar(s[i]) || s[i] == '.'
  {
    var s := x + "." + y;
    forall i | 0 <= i < |s| ensures IsDigitChar(s[i]) || s[i] == '.' {
      if i < |x| { assert s[i] == x[i]; }
      else if i > |x| { assert s[i] == y[i - |x| - 1]; }
    }
  }

  /** `v/<version>` never contains `remotes/origin/`: past its first two
      characters it holds only digits and dots. */
  lemma NoRemotePrefixIn(s: string)
    requires |s| >= 2 && s[0] == 'v' && s[1] == '/'
    requires forall i :: 2 <= i < |s| ==> IsDigitChar(s[i]) || s[i] == '.'
    ensures !IsSubstring(RemotePrefix, s)
  {
    assert !(RemotePrefix <= s) by { assert RemotePrefix[0] == 'r'; }
    assert !(RemotePrefix <= s[1..]) by { assert RemotePrefix[0] == 'r'; }
    NoLetterR(s[2..]);
    assert s[1..][1..] == s[2..];
  }

  lemma {:induction false} NoLetterR(t: string)
    requires forall i :: 0 <= i < |t| ==> IsDigitChar(t[i]) || t[i] == '.'
    ensures !IsSubstring(RemotePrefix, t)
    decreases |t|
  {
    if t != [] {
      assert !(RemotePrefix <= t) by { assert RemotePrefix[0] == 'r'; }
      NoLetterR(t[1..]);
    } else {
      assert !(RemotePrefix <= t);
    }
  }

  lemma TwoPartVersion(a: string, b: string)
    requires IsDigit(a) && IsDigit(b)
    ensures IsVersion(a + "." + b)
  {
    DigitsHaveNoDot(a);
    DigitsHaveNoDot(b);
    SplitJoin([a, b], '.');
    JoinTwo(a, b, ".");
  }

  lemma ThreePartVersion(a: string, b: string, c: string)
    requires IsDigit(a) && IsDigit(b) && IsDigit(c)
    ensures IsVersion(a + "." + b + "." + c)
  {
    DigitsHaveNoDot(a);
    DigitsHaveNoDot(b);
    DigitsHaveNoDot(c);
    SplitJoin([a, b, c], '.');
    JoinThree(a, b, c, ".");
  }

  /** Version strings the format check lets through. */
  lemma VersionsAccepted()
    ensures IsVersion("1.2") && IsVersion("1.2.3") && IsVersion("10.0.12")
  {
    TwoPartVersion("1", "2");
    assert "1" + "." + "2" == "1.2";
    ThreePartVersion("1", "2", "3");
    assert "1" + "." + "2" + "." + "3" == "1.2.3";
    ThreePartVersion("10", "0", "12");
    assert "10" + "." + "0" + "." + "12" == "10.0.12";
  }

  /** Strings the format check rejects, before any branch is looked up:
      no dot at all, ... */
  lemma UndottedRejected()
    ensures !IsVersion("1") && !IsVersion("")
  {
    SplitNoSep("1", '.');
    SplitNoSep("", '.');
  }

  /** ... four numbers, ... */
  lemma FourNumbersRejected()
    ensures !IsVersion("1.2.3.4")
  {
    FourParts();
  }

  /** ... a letter, ... */
  lemma LetterRejected()
    ensures !IsVersion("v1.2")
  {
    SplitParts(["v1", "2"], "v1.2");
    assert !IsDigitChar('v');
  }

  /** ... and an empty number. */
  lemma EmptyNumberRejected()
    ensures !IsVersion("1..2") && !IsVersion("1.2.")
  {
    SplitParts(["1", "", "2"], "1..2");
    SplitParts(["1", "2", ""], "1.2.");
  }

  lemma SplitParts(parts: seq<string>, s: string)
    requires |parts| == 2 || |parts| == 3
    requires forall i :: 0 <= i < |parts| ==> '.' !in parts[i]
    requires s == if |parts| == 2 then parts[0] + "." + parts[1] else parts[0] + "." + parts[1] + "." + parts[2]
    ensures Split(s, '.') == parts
  {
    if |parts| == 2 {
      assert parts == [parts[0], parts[1]];
      JoinTwo(parts[0], parts[1], ".");
    } else {
      assert parts == [parts[0], parts[1], parts[2]];
      JoinThree(parts[0], parts[1], parts[2], ".");
    }
    SplitJoin(parts, '.');
  }

  lemma FourParts()
    ensures |Split("1.2.3.4", '.')| == 4
  {
    var parts := ["1", "2", "3", "4"];
    assert parts[1..] == ["2", "3", "4"];
    JoinThree("2", "3", "4", ".");
    assert Join(parts, ".") == "1.2.3.4";
    SplitJoin(parts, '.');
  }
}
