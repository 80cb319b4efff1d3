# Release-branch content backend, modelled in Dafny

The backend keeps JSON records in a git repository whose release branches
are named `v/<version>` or `v_/<version>`. This project models the code that
does the work:

- the branch-name check;
- listing branches, reading a branch's history and comparing two branches
  file by file;
- the path guards;
- saving new content to a file on a branch;
- creating a file from the record template, and deciding whether it may be
  created;
- the address check;
- the display name built from an address, and the greeting and signature of a
  message;
- the checks a new user passes.

One Dafny module models each source file:

| module | file | models |
|---|---|---|
| `GitUtils` | `git_utils.dfy` | `backend/utils/git.py` |
| `GitService` | `git_service.dfy` | `backend/services/git.py` |
| `FileUtils` | `file_utils.dfy` | `backend/utils/file.py` |
| `FileService` | `file_service.dfy` | `backend/services/file.py` |
| `EmailUtils` | `email_utils.dfy` | `backend/utils/email.py` |
| `EmailService` | `email_service.dfy` | `backend/services/email.py` |
| `UserUtils` | `user_utils.dfy` | `backend/utils/user.py` |

Two modules support them:

- `PyStr` (`py_str.dfy`) gives the Python `str` methods the code calls the
  meaning Python gives them: `strip`, `lstrip(chars)`, `split(sep)`,
  `split(sep, n)`, `split()`, `splitlines()`, `replace`, `join`, ASCII
  `lower`/`upper`/`capitalize` and `isdigit`.
- `Outcomes` (`outcomes.dfy`) holds the result types and the exceptions
  raised. It also holds the outside world as values: how a git command ended
  (`Run`) and what `os.path` sees (`Disk`).

The outside world is passed in as parameters:

- what git prints;
- what `git show` returns;
- `difflib.unified_diff`;
- the clock;
- the stored users.

Operations that loop over data are methods, each proved equal to a
specification function: `ValidateBranchName`, `CommitInfo`, `GetFileDiff`
and `FormatNameFromEmail`. The operations on the repository change a `Repo`
object in place. Each method states its whole new state and keeps the
repository well formed: every reference names a commit, and every parent is
an older commit. The guards are functions whose contracts list every error
case in the order the source checks them.

Where the code and the written design disagree, the model follows the code:

- A branch is accepted when `v/<version>` exists, or else `v_/<version>`, even
  when both exist. `v/` is preferred (`GitUtils.PickCandidate`).
- `get_branches` drops empty lines only. A line of spaces inside the listing
  gives an empty name.
- The seed record always gets a `timestamp` key, whether the template has one
  or not (`FileService.SeedRecord`).
- `check_file_existence` builds the local path with a plain `/`. The path
  validators use `os.path.join`. Under POSIX rules, an absolute path replaces
  the repository root (`FileUtils.AbsolutePathLookedUpAsIs`).
- `edit_and_save_content` is meant to commit to a branch without checking it
  out. Its `repo.index.commit` keeps GitPython's default `head=True`, so the
  branch checked out moves to the new commit too (see "## Findings").
- `file_save` checks the branch out with `git checkout`. A branch known only
  as `origin/<branch>` is then created locally from the remote one, and the
  file is committed on it (`FileService.RemoteOnlyBranchSaved`).

## Model

| member | source | states |
|---|---|---|
| GitUtils.IsVersion | backend/utils/git.py:9 | a string the format check accepts holds a dot (the exact accepted set is stated by `VersionIsPattern`) |
| GitUtils.VersionIsPattern | backend/utils/git.py:9 | the split-based version check accepts exactly `\d+\.\d+(\.\d+)?` with ASCII digits |
| GitUtils.VersionChars | backend/utils/git.py:9 | an accepted version is digits and dots, at least three characters, with a digit at each end |
| GitUtils.TwoPartVersion | backend/utils/git.py:9 | any `X.Y` of digit runs is accepted |
| GitUtils.ThreePartVersion | backend/utils/git.py:9 | any `X.Y.Z` of digit runs is accepted |
| GitUtils.VersionsAccepted | backend/utils/git.py:9 | `1.2`, `1.2.3` and `10.0.12` pass the format check |
| GitUtils.UndottedRejected | backend/utils/git.py:9-10 | `1` and the empty string are refused |
| GitUtils.FourNumbersRejected | backend/utils/git.py:9-10 | `1.2.3.4` is refused |
| GitUtils.LetterRejected | backend/utils/git.py:9-10 | `v1.2` is refused |
| GitUtils.EmptyNumberRejected | backend/utils/git.py:9-10 | `1..2` and `1.2.` are refused |
| GitUtils.ListingEntry | backend/utils/git.py:23 | cleaning a listing line (strip, drop leading `*` and spaces, delete `remotes/origin/`) never makes it longer |
| GitUtils.ExistingBranches | backend/utils/git.py:22-25 | the output gives at most one existing-branch name per line of its stripped text |
| GitUtils.ListingEntriesMembership | backend/utils/git.py:22-25 | a name is among the existing branches exactly when some non-blank listing line cleans to it |
| GitUtils.ListingLineNamesBranch | backend/utils/git.py:23 | a line as git prints it (marker, optional `remotes/origin/`, name) cleans to the name |
| GitUtils.FirstPresent | backend/utils/git.py:27-29 | the result is the first candidate, in order, that is listed; none when no candidate is listed |
| GitUtils.NotFoundMessage | backend/utils/git.py:31 | the text of the ValueError raised when neither candidate is listed: both candidates as Python prints the list (a message constant, no contract) |
| GitUtils.PickCandidate | backend/utils/git.py:12-31 | success exactly when `v/<b>` or `v_/<b>` is listed, and the answer is always a listed branch; `v/` is preferred, and `v_/<b>` comes back when only it is listed; otherwise the not-found ValueError naming both candidates |
| GitUtils.BranchFor | backend/utils/git.py:5-34 | a bad format raises the format ValueError first; a failed listing raises `Error retrieving branches: ` with the stripped stderr; otherwise the candidate choice over the listing |
| GitUtils.ValidateBranchName | backend/utils/git.py:5-34 | the method with its search loop returns exactly what the specification function gives |
| GitUtils.FindFirst | backend/utils/git.py:27-29 | the loop over the candidates returns the first one present |
| GitUtils.RemoteOnlyBranchResolves | backend/utils/git.py:22-29 | a version branch listed only as `remotes/origin/v/<b>` still resolves to `v/<b>` |
| GitUtils.VersionBranchHasNoRemotePrefix | backend/utils/git.py:12-23 | `v/<version>` never holds `remotes/origin/`, so the prefix removal leaves it alone |
| GitService.BranchNames | backend/services/git.py:41-42 | one name per non-empty line at most, each trimmed |
| GitService.BranchName | backend/services/git.py:42 | a cleaned listing line is trimmed |
| GitService.GetBranches | backend/services/git.py:19-47 | a missing repository path, then a missing `.git` directory, then a failed listing each raise their message; on success one trimmed name per non-empty line |
| GitService.BranchLineName | backend/services/git.py:42 | the current branch `* name`, any other `  name` and an unmarked line all give `name` |
| GitService.ListingNamesRoundTrip | backend/services/git.py:41-44 | reading back the lines git prints for a list of branches gives the names in the order printed |
| GitService.ListingOutputRoundTrip | backend/services/git.py:41-42 | reading back the whole standard output of `git branch --list` (one line per branch behind `* ` or two spaces, a final newline, the whole text stripped before the split) gives the branch names in order |
| GitService.BranchNamesAppend | backend/services/git.py:42 | names come out in the order of their lines |
| GitService.BlankListingIsEmpty | backend/services/git.py:41-44 | a repository whose listing is blank lists no branch |
| GitService.ParseCommitLine | backend/services/git.py:65-75 | a record is read only from a non-blank line, and its hash, author and date hold no pipe |
| GitService.ParseLog | backend/services/git.py:64-75 | at most one record per line of the log |
| GitService.ParseCommitLineSpec | backend/services/git.py:64-75 | a line is skipped exactly when blank or holding fewer than three pipes; a line read is the printed form of its record |
| GitService.CollectMember | backend/services/git.py:63-75 | a record is collected exactly when some line parses to it |
| GitService.CollectAppend | backend/services/git.py:64-75 | reading a log is reading its parts in order |
| GitService.CommitInfo | backend/services/git.py:50-81 | a failed `git log` raises `Error retrieving commit history: ` with the stripped stderr; otherwise the records of the stripped output's lines, in order |
| GitService.ReadCommits | backend/services/git.py:64-75 | the loop collects exactly the records the specification reads |
| GitService.ReadCommit | backend/services/git.py:65-75 | one pass of the loop adds the line's record, if any |
| GitService.ParseLogFields | backend/services/git.py:64-75 | every record read has no pipe in its hash, author or date |
| GitService.CommitFields | backend/services/git.py:57-67 | the printed form of a commit splits into its four fields, even when the subject holds pipe |
| GitService.CommitRoundTrip | backend/services/git.py:57-75 | a commit whose first three fields hold no pipe reads back unchanged |
| GitService.LogRoundTrip | backend/services/git.py:57-77 | the history git prints for a list of commits reads back as that list |
| GitService.CommitNotBlank | backend/services/git.py:65-66 | no printed commit line is skipped as blank |
| GitService.Positions | backend/services/git.py:97-98 | the reported positions are 1-based, ascending, and exactly those of the selected lines |
| GitService.IsAddedLine | backend/services/git.py:97 | a line counted as added starts with `+` |
| GitService.IsRemovedLine | backend/services/git.py:98 | a line counted as removed starts with `-` |
| GitService.AddedLines | backend/services/git.py:97 | every reported number n is in range and diff line n (1-based) is an added line, and every added line is reported |
| GitService.RemovedLines | backend/services/git.py:98 | every reported number n is in range and diff line n (1-based) is a removed line, and every removed line is reported |
| GitService.PositionSelected | backend/services/git.py:97-98 | a reported position always points at a selected line |
| GitService.AddedRemovedDisjoint | backend/services/git.py:97-98 | no diff line is counted both as added and as removed |
| GitService.ChangeFor | backend/services/git.py:92-105 | a file's report carries its path and both blobs, and the added and removed positions of their unified diff; a failing `git show` on either branch raises its GitCommandError, the first branch's first |
| GitService.Changes | backend/services/git.py:89-107 | success exactly when every file reports; then one report per changed file, in order |
| GitService.FirstFailureRaised | backend/services/git.py:90-93 | the error raised is that of the first file whose `git show` fails |
| GitService.DiffFile | backend/services/git.py:91-105 | the loop body gives the specified report for one file |
| GitService.GetFileDiff | backend/services/git.py:84-107 | a failing name listing raises; otherwise the method's loop gives exactly the specified reports |
| FileUtils.IsEmptyOrNull | backend/utils/file.py:12 | the empty path is refused; a refused path is empty or four characters long (some case spelling of `null`) |
| FileUtils.ValidateFilePath | backend/utils/file.py:3-18 | an all-digit path is refused first, then an empty or `null` one, then one missing below the repository; otherwise the path comes back unchanged |
| FileUtils.ValidateFolderPath | backend/utils/file.py:21-33 | the same guards without the digit rule, with the folder messages |
| FileUtils.FileAndFolderAgree | backend/utils/file.py:3-33 | off the digit rule both guards accept the same paths |
| FileUtils.DigitsOnlyFolder | backend/utils/file.py:9-33 | an existing all-digit folder is accepted while the same file path is refused as a number |
| FileUtils.NullInAnyCase | backend/utils/file.py:12-25 | any spelling that lower-cases to `null` is refused by both guards |
| FileUtils.NullSpellings | backend/utils/file.py:12 | `NULL`, `Null` and `null` all lower-case to `null` |
| FileUtils.AbsolutePathLookedUpAsIs | backend/utils/file.py:7-16 | under POSIX path rules, an absolute path is looked up as it stands, not below the repository |
| FileService.Repo.WriteFile | backend/services/file.py:25-30 | the working tree holds the blob at the path; the index, the commits and every reference stay as they were |
| FileService.Decimal | backend/services/file.py:30 | `str()` of a natural number: decimal digits whose value, read left to right, is the number, with no leading zero |
| FileService.Rendered | backend/services/file.py:27-30 | a dict or a list is written as JSON indented by four; anything else as its `str()` |
| FileService.PyText | backend/services/file.py:30 | `str()` of a string is the string; an integer prints as decimal digits whose value is the number, behind a `-` exactly when it is negative |
| FileService.TemplateRecord | backend/services/file.py:72-75 | the dict comprehension has exactly the template's keys, `category` set to the folder and every other key empty |
| FileService.SeedRecord | backend/services/file.py:72-76 | the record's keys are the template's plus `timestamp`, which holds the creation time; every value is text |
| FileService.SeedCategory | backend/services/file.py:72-75 | the category holds the folder |
| FileService.SeedOthersEmpty | backend/services/file.py:72-75 | every other template key starts empty |
| FileService.SeedOverridesTimestamp | backend/services/file.py:72-76 | the time overwrites a template `timestamp`, and no category appears unless the template has one |
| FileService.SeedOfEmptyTemplate | backend/services/file.py:72-76 | an empty template gives a record holding only the time |
| FileService.Repo.constructor | backend/services/file.py:8 | a clone with one commit on one branch, the remote's branches known at that commit, is well formed |
| FileService.Repo.CommitIndex | backend/services/file.py:43 | the commit object records the index with the given parent and message under the next number, moves no branch and keeps the history well formed |
| FileService.Repo.ResetIndex | backend/services/file.py:34 | the index becomes the given commit's tree; nothing else changes |
| FileService.Repo.Stage | backend/services/file.py:38-93 | the index takes the working tree's file; nothing else changes |
| FileService.Repo.SetRef | backend/services/file.py:48 | the branch points at the commit; nothing else changes |
| FileService.Repo.SchedulePush | backend/services/file.py:52-100 | exactly one push of the branch is queued |
| FileService.Repo.EditAndSaveContent | backend/services/file.py:8-56 | an unknown branch raises before anything changes; otherwise the new tip is the old tip's tree with only the file replaced, its sole parent the old tip, its message `Updated file content`; both the branch and the branch checked out move there, one push is queued and the content comes back |
| FileService.Repo.EditAndSaveContentKeepingHead | backend/services/file.py:8-56 | the same save committed with `head=False`: only the named branch moves, and the branch checked out keeps its tip |
| FileService.Repo.Checkout | backend/services/file.py:80 | a known branch is checked out; a branch known only as `origin/<b>` is first created at the remote one's commit; a name known neither way fails and changes nothing; the checked-out tree is in the index and on disk |
| FileService.Repo.FileSave | backend/services/file.py:69-103 | checks the branch out, creating it from the remote one if need be, writes the seed record as JSON indented by two, commits it on the branch with `Created new file <path>`, queues one push and returns the path; a branch git does not know fails and changes nothing |
| FileService.Repo.CommitNewFile | backend/services/file.py:84-100 | the file is written and staged, `git commit` records it on the branch checked out and moves that branch, and one push of it is queued |
| FileService.NewCommitKeepsValid | backend/services/file.py:43-97 | a new commit whose parents are known keeps every parent older than its child |
| FileService.SetRefKeepsValid | backend/services/file.py:48 | moving a reference to a known commit keeps every reference on a commit |
| FileService.EditMovesCheckedOutBranch | backend/services/file.py:43 | with `v/1.0` checked out, an edit of `v/2.0` moves `v/1.0` off its tip onto the new commit of `v/2.0` |
| FileService.EditKeepsCheckedOutBranch | backend/services/file.py:8-12 | the same edit made with `head=False` leaves `v/1.0` where it was and moves `v/2.0` |
| FileService.RemoteOnlyBranchSaved | backend/services/file.py:80-97 | a branch known only as `origin/v/2.0` is created by the checkout, and the new file is committed on it |
| FileService.Decide | backend/services/file.py:129-144 | only "in neither place" passes, returning `(False, False)`; every refusal is a 400; the checkout and pull happen exactly when the file is only in the remote |
| FileService.CheckFileExistence | backend/services/file.py:106-144 | a failed fetch propagates; a failed listing becomes a 400; success exactly when the file is neither on disk nor listed, returning `(False, False)`; checkout and pull run exactly in the remote-only case |
| FileService.InBothRefused | backend/services/file.py:131-132 | a file on disk and in the remote branch is refused as already existing |
| FileService.RemoteOnlyFetched | backend/services/file.py:135-138 | a file only in the remote is refused after the branch is checked out and pulled |
| FileService.LocalOnlyRefused | backend/services/file.py:141-142 | a file only on disk is refused until synced |
| FileService.NeitherAccepted | backend/services/file.py:129-144 | a file in neither place passes with `(False, False)` after only the fetch and the listing |
| EmailUtils.ValidateEmail | backend/utils/email.py:2-13 | an empty address is refused, then one without `@` or without `.com` anywhere in its lower-cased form; otherwise it comes back unchanged |
| EmailUtils.AcceptedAt | backend/utils/email.py:10-13 | an address with `@` somewhere and `.com` anywhere in any case is accepted |
| EmailUtils.LooseDotCom | backend/utils/email.py:10 | `a@b.COM` and `a@b.company` are both accepted: the pattern looks for `.com` anywhere, ignoring case |
| EmailUtils.PlainAddress | backend/utils/email.py:10-13 | `user@example.com` is accepted |
| EmailUtils.ShapeRejected | backend/utils/email.py:7-11 | `noatsign.com` and `missingdotcom@x` are refused for their shape, the empty string as empty |
| EmailService.LocalPart | backend/services/email.py:9 | the part before the first `@` holds no `@` |
| EmailService.Separated | backend/services/email.py:12 | replacing dots and underscores with spaces keeps the length and leaves neither character |
| EmailService.NameFromEmail | backend/services/email.py:7-20 | the name the function builds, as one expression; its shape is stated by `NameShape` and `NameIdempotent` (no contract of its own) |
| EmailService.Letters | backend/services/email.py:17 | the letters kept are ASCII letters of the piece, and every letter of it is kept |
| EmailService.CleanedWord | backend/services/email.py:17-19 | a piece gives no word exactly when it has no letter, otherwise one capitalised word |
| EmailService.NameWords | backend/services/email.py:16-19 | every collected word is capitalised ASCII letters, at most one per piece |
| EmailService.FormatNameFromEmail | backend/services/email.py:7-20 | the method with its loop returns exactly the specified name |
| EmailService.NameWordsStep | backend/services/email.py:16-19 | reading one more piece appends its cleaned word |
| EmailService.NameShape | backend/services/email.py:19-20 | the name is capitalised words one space apart, with no leading or trailing space |
| EmailService.NameIdempotent | backend/services/email.py:7-20 | formatting a formatted name gives it back unchanged |
| EmailService.OnlyBeforeFirstAt | backend/services/email.py:9 | only the text before the first `@` is read |
| EmailService.PlainLocalPart | backend/services/email.py:9-12 | text without `@`, `.` and `_` passes the split and the replacements unchanged |
| EmailService.DotsAndUnderscoresSeparate | backend/services/email.py:12-15 | a dot or an underscore separates words as a space does |
| EmailService.SeparatedConcat | backend/services/email.py:12 | each `.`, `_` and space between two texts becomes one space |
| EmailService.FirstDotLast | backend/services/email.py:7-20 | `first.lastNNN@domain` gives `First Last`, as `john.doe123@x.com` gives `John Doe` |
| EmailService.HyphenDropped | backend/services/email.py:17-19 | `mary-jane` gives the single word `Maryjane` |
| EmailService.DigitsVanish | backend/services/email.py:17-18 | a piece of digits only contributes no word |
| EmailService.LettersConcat | backend/services/email.py:17 | the letters of two texts are the letters of each, in order |
| EmailService.Greeting | backend/services/email.py:62 | the greeting paragraph has the name's length plus its fixed text, and shows the name with no lower-case letter |
| EmailService.Signature | backend/services/email.py:64 | for a non-empty name, the first letter of the signed name is not lower case |
| EmailService.Letter | backend/services/email.py:62-64 | the three paragraphs that depend on the inputs; its properties are stated by `BodyVerbatim` and `FormatEmailBody` (no contract of its own) |
| EmailService.FormatEmailBody | backend/services/email.py:23-74 | the message is the greeting with the upper-cased name, the body as given, and the signature |
| EmailService.BodyVerbatim | backend/services/email.py:63 | the body text goes in verbatim, between a frame that does not depend on it |
| EmailService.GreetingUpperCase | backend/services/email.py:25-62 | the greeting shows no lower-case letter of the name |
| EmailService.SignatureCapitalizes | backend/services/email.py:25-64 | the signature is the name capitalised as a whole |
| EmailService.TwoNameSignature | backend/services/email.py:25-64 | `JOHN DOE` is signed `John doe` |
| UserUtils.IsMissing | backend/utils/user.py:8 | a field is missing exactly when it is absent or holds only whitespace |
| UserUtils.HasUserEmailShape | backend/utils/user.py:16 | an accepted address is at least five characters long and ends with `.com` |
| UserUtils.IsTaken | backend/utils/user.py:23-25 | the duplicate query: some stored user has the username or the email (a predicate, no contract) |
| UserUtils.FirstMissing | backend/utils/user.py:6-12 | the first required field, in order, that is missing or blank; none when all are present |
| UserUtils.ValidateUserInput | backend/utils/user.py:4-31 | a missing field is named first, then the shape is checked, then duplicates; success exactly when all pass; every refusal is a 400 |
| UserUtils.MissingFieldReported | backend/utils/user.py:9-12 | the refusal names the first missing field |
| UserUtils.UsernameReportedFirst | backend/utils/user.py:6-12 | a missing username is reported before anything else |
| UserUtils.EmailReportedBeforeRole | backend/utils/user.py:6-12 | with the username present, a missing email is reported whatever the role |
| UserUtils.ShapeBeforeDuplicate | backend/utils/user.py:15-23 | a badly shaped address is refused whatever users are stored |
| UserUtils.DuplicateRefused | backend/utils/user.py:23-31 | a stored user with the same username or email blocks the new one |
| UserUtils.StricterThanValidateEmail | backend/utils/user.py:15-20 | an address the user check accepts is accepted by the address check too |
| UserUtils.UpperCaseSuffixRefused | backend/utils/user.py:15-20 | `a@b.COM` passes the address check but not the case-sensitive suffix check |
| Outcomes.PathJoin | backend/utils/file.py:7 | `os.path.join` under POSIX rules: an absolute second part replaces the first; otherwise the result ends with the second part |
| PyStr.IsSpace | backend/services/git.py:42 | space, tab, newline and carriage return are whitespace; no digit or ASCII letter is |
| PyStr.Split | backend/utils/git.py:24 | at least one part, none holding the separator; more than one only when the separator occurs |
| PyStr.SplitN | backend/services/git.py:67 | between one and n + 1 parts; every part but the last is free of the separator |
| PyStr.SplitLines | backend/services/git.py:87 | no line holds a line break |
| PyStr.Replace | backend/services/email.py:12 | equal-length pattern and replacement keep the length; a shorter replacement never lengthens; a one-character pattern absent from the replacement is gone; every character comes from the input or the replacement |
| PyStr.LStripChars | backend/utils/git.py:23 | the result is a suffix of the input that does not start with a stripped character |
| PyStr.Lower | backend/utils/file.py:12 | same length, no upper-case ASCII letter left, every non-letter unchanged |
| PyStr.Upper | backend/services/email.py:25 | same length, no lower-case ASCII letter left, every non-letter unchanged |
| PyStr.Capitalize | backend/services/email.py:19 | same length, the first character not lower case, none of the others upper case |
| PyStr.SplitJoin | backend/utils/git.py:24 | splitting a join of separator-free parts gives the parts back |
| PyStr.JoinSplit | backend/utils/git.py:24 | joining the parts of a split with the separator gives the text back |
| PyStr.SplitNParts | backend/services/git.py:67 | `split(sep, n)` gives one more part than separators, capped at `n + 1` |
| PyStr.SplitNJoin | backend/services/git.py:67 | joining the parts of `split(sep, n)` gives the text back |
| PyStr.Words | backend/services/email.py:15 | `split()` gives non-empty words without whitespace |
| PyStr.WordsJoin | backend/services/email.py:15-20 | splitting words joined by single spaces gives them back |
| PyStr.Strip | backend/services/git.py:42 | `strip()` gives trimmed text, empty exactly when the input is all whitespace |

## Findings

| source | as written | input that shows it | evidently intended | confidence | as-written member | corrected member |
|---|---|---|---|---|---|---|
| backend/services/file.py:43 | the index commit keeps GitPython's default `head=True`, so the branch checked out also moves to the new commit | `v/1.0` checked out and `edit_and_save_content` on `v/2.0`: `v/1.0` ends on the new commit of `v/2.0` (`FileService.EditMovesCheckedOutBranch`) | commit without moving HEAD (`head=False`), so that only the named branch moves, as the docstring at lines 9-12 says | high; not executed | FileService.Repo.EditAndSaveContent | FileService.Repo.EditAndSaveContentKeepingHead |

## Left out

- `create_and_push_branch` (backend/services/git.py:110-127) is not modelled. It relies on `_push_changes`, `branch_exists_local` and `branch_exists_remote`, imported from `utils.git`, which are not defined there.
- The background push itself (backend/services/file.py:59-66) is not modelled. Only its scheduling is: it runs later and its failures are only printed.
- Logging and `print` are left out.
- SMTP sending (backend/services/email.py:77-92) is left out.
- The style sheet, header and footer of the e-mail template are left out. `Letter` keeps the three paragraphs that depend on the inputs and the line break with its sixteen spaces of indentation between them.
- `json.dumps`/`json.dump` layout, `datetime.now`, `difflib.unified_diff`, the git subprocesses and `os.path` are inputs or abstract values. A dump is recorded as the value and its indentation.
- GitPython failures inside a step that the code does not catch are not modelled, beyond the unknown branch, the failed fetch or listing, and a failing `git show`.
- A `git.Repo` that cannot be opened is not modelled.
- `os.makedirs` is not modelled.
- FileService.Repo.EditAndSaveContent: the `IndexError` for an unknown branch carries the branch name, not GitPython's exact wording.
- FileService.Repo.FileSave: the checkout failure's GitCommandError carries git's `pathspec` message, not GitPython's full rendering of the exception.
- FileService.Repo.Checkout: assumes a clean working tree. Uncommitted local changes that git would carry across a checkout are not modelled.
- FileService.CheckFileExistence: the checkout and the pull of the remote-only case are taken to succeed. A GitCommandError from them is not modelled.
- FileService.CheckFileExistence: a failed listing's text is the command's error output, not GitPython's full rendering of the exception.
- `os.path` follows POSIX rules (`Outcomes.PathJoin`). The configured root `C:/...` suggests Windows, where `ntpath` joins with `\` and a rooted `/x` keeps the root's drive. The Windows path rules are not modelled.
- FileService.Repo: HEAD is always a branch name. A detached HEAD is not modelled.
- FileService.Repo.Checkout: the remote is `origin` only. Git's guess from a branch name when several remotes have it is not modelled.
- Paths in `Repo` are keys relative to the repository root. `os.path.join` with an absolute file path, which would write outside the repository, is not modelled.
- `isdigit`, `\d`, `lower`, `upper` and `capitalize` are modelled on ASCII only. Python also accepts non-ASCII digits and letters. Whitespace for `strip()` and `split()` is Python's full `isspace` set.
- `str()` of floats, and of nested values other than dicts and lists, is not modelled: `Json` has integers, booleans, null and strings as scalars.
- The database (backend/db/*.py, backend/services/user.py) is left out. The stored users are a sequence of rows, and each field value is the text `str()` gives for it.
- Password hashing is left out.
- The HTTP handlers (backend/api/*.py) and their mapping of exceptions to status codes are left out.
- Concurrent requests sharing the working tree, index and references are not modelled.
- The worked examples of the display name (`john.doe123@x.com`, `mary-jane`) are proved for every input of that shape, not evaluated on the literal strings.
