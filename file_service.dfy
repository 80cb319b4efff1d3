/** backend/services/file.py: saving new content to a file on a branch,
    creating a file from the record template, and deciding whether a file
    may be created. The repository is a `Repo` object whose branches,
    commits, index and working tree the operations change in place; the
    clock, the remote and the background task runner are given as values. */
module FileService {
  import opened PyStr
  import opened Outcomes

  // ---------------------------------------------------------------------
  // Content and how it is written
  // ---------------------------------------------------------------------

  /** A value as `json.loads` returns it. */
  datatype Json =
    | JNull
    | JBool(b: bool)
    | JInt(i: int)
    | JStr(s: string)
    | JList(items: seq<Json>)
    | JObject(fields: map<string, Json>)

  /** What is written to a file: a JSON dump with the given indentation, or
      plain text. The layout of a dump is not modelled. */
  datatype Blob = Dumped(value: Json, indent: nat) | Text(text: string)

  /** The number a string of decimal digits spells, read left to right. */
  ghost function DigitsValue(s: string): int
    requires forall i :: 0 <= i < |s| ==> IsDigitChar(s[i])
  {
    if s == [] then 0
    else DigitsValue(s[..|s| - 1]) * 10 + (s[|s| - 1] as int - '0' as int)
  }

  /** The decimal digits of `n`, as `str(n)` prints them. */
  function Decimal(n: nat): (r: string)
    ensures r != [] && forall i :: 0 <= i < |r| ==> IsDigitChar(r[i])
    ensures DigitsValue(r) == n
    ensures |r| == 1 || r[0] != '0'
  {
    var d := [('0' as int + n % 10) as char];
    if n < 10 then d
    else
      var front := Decimal(n / 10);
      assert (front + d)[..|front|] == front;
      front + d
  }

  /** `str(value)` for a value that is neither a dict nor a list. */
  function PyText(value: Json): (r: string)
    requires !value.JList? && !value.JObject?
    ensures value.JStr? ==> r == value.s
    ensures value.JInt? ==> (value.i < 0 <==> r != [] && r[0] == '-')
    ensures value.JInt? && value.i >= 0 ==>
      (forall k :: 0 <= k < |r| ==> IsDigitChar(r[k])) && DigitsValue(r) == value.i
    ensures value.JInt? && value.i < 0 ==>
      |r| > 1 && (forall k :: 1 <= k < |r| ==> IsDigitChar(r[k])) && DigitsValue(r[1..]) == -value.i
  {
    match value
    case JNull => "None"
    case JBool(b) => if b then "True" else "False"
    case JInt(i) => if i < 0 then "-" + Decimal(-i) else Decimal(i)
    case JStr(s) => s
  }

  /** What `edit_and_save_content` writes: a dict or a list as JSON indented
      by four, anything else as its `str()`. */
  function Rendered(content: Json): (b: Blob)
    ensures b.Dumped? <==> content.JObject? || content.JList?
    ensures b.Dumped? ==> b.value == content && b.indent == 4
    ensures content.JStr? ==> b == Text(content.s)
  {
    if content.JObject? || content.JList? then Dumped(content, 4)
    else Text(PyText(content))
  }

  // ---------------------------------------------------------------------
  // The seed record of file_save
  // ---------------------------------------------------------------------

  /** The template's keys, `category` set to the folder and the rest empty. */
  function TemplateRecord(template: set<string>, folder: string): (r: map<string, Json>)
    ensures r.Keys == template
    ensures "category" in template ==> r["category"] == JStr(folder)
    ensures forall key :: key in r && key != "category" ==> r[key] == JStr("")
  {
    map key | key in template :: if key == "category" then JStr(folder) else JStr("")
  }

  /** The record a new file starts with: the template's keys plus
      `timestamp`, which holds the creation time. */
  function SeedRecord(template: set<string>, folder: string, now: string): (r: map<string, Json>)
    ensures r.Keys == template + {"timestamp"}
    ensures r["timestamp"] == JStr(now)
    ensures forall key :: key in r && key != "timestamp" ==> r[key].JStr?
  {
    TemplateRecord(template, folder)["timestamp" := JStr(now)]
  }

  /** The folder is recorded as the category when the template has one. */
  lemma SeedCategory(template: set<string>, folder: string, now: string)
    requires "category" in template
    ensures SeedRecord(template, folder, now)["category"] == JStr(folder)
  {
  }

  /** Every other template key starts empty. */
  lemma SeedOthersEmpty(template: set<string>, folder: string, now: string, key: string)
    requires key in template && key != "category" && key != "timestamp"
    ensures SeedRecord(template, folder, now)[key] == JStr("")
  {
  }

  /** A `timestamp` key of the template is overwritten by the time, and no
      `category` appears unless the template has one. */
  lemma SeedOverridesTimestamp(template: set<string>, folder: string, now: string)
    ensures SeedRecord(template, folder, now)["timestamp"] == JStr(now)
    ensures "category" !in template ==> "category" !in SeedRecord(template, folder, now)
  {
  }

  /** An empty template gives a record holding only the time. */
  lemma SeedOfEmptyTemplate(folder: string, now: string)
    ensures SeedRecord({}, folder, now) == map["timestamp" := JStr(now)]
  {
    var r := SeedRecord({}, folder, now);
    assert r.Keys == {"timestamp"};
  }

  // ---------------------------------------------------------------------
  // The repository
  // ---------------------------------------------------------------------

  /** A commit: the files it records, its parents and its message. */
  datatype Commit = Commit(tree: map<string, Blob>, parents: seq<nat>, message: string)

  const EditMessage: string := "Updated file content"

  function CreateMessage(filePath: string): string {
    "Created new file " + filePath
  }

  /** The error `git checkout` gives for a name it knows neither as a branch
      nor as a remote-tracking branch. */
  function PathspecMessage(branch: string): string {
    "error: pathspec '" + branch + "' did not match any file(s) known to git"
  }

  /** The local repository the backend works in. Paths are relative to its
      root; commits are numbered in the order they are made. */
  class Repo {
    /** Each local branch's name and the commit it points to. */
    var refs: map<string, nat>
    /** The remote-tracking branches: `origin/<name>` by `name`. */
    var remoteRefs: map<string, nat>
    var commits: map<nat, Commit>
    /** The staging area. */
    var index: map<string, Blob>
    /** The files on disk below the repository root. */
    var workTree: map<string, Blob>
    /** The branch checked out. */
    var head: string
    /** The branches the background tasks will push, in order. */
    var pushQueue: seq<string>
    /** The number the next commit gets. */
    var nextId: nat

    /** Branches and remote-tracking branches point at commits, and every
        parent is an older commit. */
    ghost predicate Valid()
      reads this
    {
      WellFormed(refs, commits, nextId) && PointInto(remoteRefs, commits)
    }

    /** A clone with one commit, checked out on `branch`; the remote's
        branches `remote` are known at that commit too. */
    constructor (branch: string, tree: map<string, Blob>, remote: set<string>)
      ensures Valid()
      ensures refs == map[branch := 0] && commits == map[0 := Commit(tree, [], "")]
      ensures remoteRefs == map name | name in remote :: 0
      ensures index == tree && workTree == tree && head == branch
      ensures pushQueue == [] && nextId == 1
    {
      refs := map[branch := 0];
      remoteRefs := map name | name in remote :: 0;
      commits := map[0 := Commit(tree, [], "")];
      index := tree;
      workTree := tree;
      head := branch;
      pushQueue := [];
      nextId := 1;
    }

    /** The commit object of `repo.index.commit(message,
        parent_commits=[parent])`: records the index as a commit with the
        given parent and message. No branch moves; with GitPython's default
        `head=True` the call then also moves the branch checked out, which
        the callers do with `SetRef(head, id)`. */
    method CommitIndex(parent: nat, message: string) returns (id: nat)
      requires Valid() && parent in commits
      modifies this
      ensures Valid()
      ensures id == old(nextId) && nextId == old(nextId) + 1
      ensures commits == old(commits)[id := Commit(index, [parent], message)]
      ensures refs == old(refs) && remoteRefs == old(remoteRefs)
      ensures index == old(index) && workTree == old(workTree)
      ensures head == old(head) && pushQueue == old(pushQueue)
    {
      id := nextId;
      var c := Commit(index, [parent], message);
      assert forall p :: p in c.parents ==> p == parent;
      NewCommitKeepsValid(refs, commits, nextId, c);
      GrowKeepsPointing(remoteRefs, commits, id, c);
      commits := commits[id := c];
      nextId := nextId + 1;
    }

    /** Points the branch `name` at the commit `id`. */
    method SetRef(name: string, id: nat)
      requires Valid() && id in commits
      modifies this
      ensures Valid()
      ensures refs == old(refs)[name := id]
      ensures remoteRefs == old(remoteRefs) && commits == old(commits) && index == old(index)
      ensures workTree == old(workTree) && head == old(head)
      ensures pushQueue == old(pushQueue) && nextId == old(nextId)
    {
      SetRefKeepsValid(refs, commits, nextId, name, id);
      refs := refs[name := id];
    }

    /** Writes `blob` at `path` in the working tree. */
    method WriteFile(path: string, blob: Blob)
      requires Valid()
      modifies this
      ensures Valid()
      ensures workTree == old(workTree)[path := blob]
      ensures refs == old(refs) && remoteRefs == old(remoteRefs) && commits == old(commits) && index == old(index)
      ensures head == old(head) && pushQueue == old(pushQueue) && nextId == old(nextId)
    {
      workTree := workTree[path := blob];
    }

    /** `git add path`: stages the working tree's file. */
    method Stage(path: string)
      requires Valid() && path in workTree
      modifies this
      ensures Valid()
      ensures refs == old(refs) && remoteRefs == old(remoteRefs) && commits == old(commits)
      ensures workTree == old(workTree)
      ensures index == old(index)[path := workTree[path]]
      ensures head == old(head) && pushQueue == old(pushQueue) && nextId == old(nextId)
    {
      index := index[path := workTree[path]];
    }

    /** Adds a push of `branch` to the background tasks. */
    method SchedulePush(branch: string)
      requires Valid()
      modifies this
      ensures Valid()
      ensures pushQueue == old(pushQueue) + [branch]
      ensures refs == old(refs) && remoteRefs == old(remoteRefs) && commits == old(commits)
      ensures index == old(index) && workTree == old(workTree)
      ensures head == old(head) && nextId == old(nextId)
    {
      pushQueue := pushQueue + [branch];
    }

    /** `repo.index.reset(commit=tip, working_tree=False)` */
    method ResetIndex(tip: nat)
      requires Valid() && tip in commits
      modifies this
      ensures Valid()
      ensures index == old(commits)[tip].tree
      ensures refs == old(refs) && remoteRefs == old(remoteRefs) && commits == old(commits)
      ensures workTree == old(workTree)
      ensures head == old(head) && pushQueue == old(pushQueue) && nextId == old(nextId)
    {
      index := commits[tip].tree;
    }

    /** `edit_and_save_content(repo, branch, file_path, new_content, ...)` as
        the code is written: writes the content, resets the index to the
        branch's tip, stages the file, commits on top of the tip with
        GitPython's default `head=True`, moves the branch there and
        schedules one push of the branch. The content comes back unchanged.
        An unknown branch raises before anything is written. The default
        `head=True` also moves the branch checked out, whichever it is. */
    method EditAndSaveContent(branch: string, filePath: string, newContent: Json) returns (r: Result<Json, Raised>)
      requires Valid()
      modifies this
      ensures Valid()
      ensures branch !in old(refs) ==> r == Failure(IndexError(branch)) && unchanged(this)
      ensures branch in old(refs) ==>
        var tip := old(refs)[branch];
        var tree := old(commits)[tip].tree[filePath := Rendered(newContent)];
        && r == Success(newContent)
        && workTree == old(workTree)[filePath := Rendered(newContent)]
        && commits == old(commits)[old(nextId) := Commit(tree, [tip], EditMessage)]
        && ChangedOnlyAt(old(commits)[tip].tree, commits[old(nextId)].tree, filePath)
        && refs == old(refs)[old(head) := old(nextId)][branch := old(nextId)]
        && remoteRefs == old(remoteRefs)
        && index == tree
        && nextId == old(nextId) + 1
        && head == old(head)
        && pushQueue == old(pushQueue) + [branch]
    {
      if branch !in refs {
        return Failure(IndexError(branch));
      }
      var tip := refs[branch];
      WriteFile(filePath, Rendered(newContent));
      ResetIndex(tip);
      Stage(filePath);
      var id := CommitIndex(tip, EditMessage);
      SetRef(head, id);
      SetRef(branch, id);
      SchedulePush(branch);
      r := Success(newContent);
    }

    /** `edit_and_save_content` as designed: the same steps, but the commit
        is made with `head=False`, so only the named branch moves and the
        branch checked out keeps its tip. */
    method EditAndSaveContentKeepingHead(branch: string, filePath: string, newContent: Json)
      returns (r: Result<Json, Raised>)
      requires Valid()
      modifies this
      ensures Valid()
      ensures branch !in old(refs) ==> r == Failure(IndexError(branch)) && unchanged(this)
      ensures branch in old(refs) ==>
        var tip := old(refs)[branch];
        var tree := old(commits)[tip].tree[filePath := Rendered(newContent)];
        && r == Success(newContent)
        && workTree == old(workTree)[filePath := Rendered(newContent)]
        && commits == old(commits)[old(nextId) := Commit(tree, [tip], EditMessage)]
        && ChangedOnlyAt(old(commits)[tip].tree, commits[old(nextId)].tree, filePath)
        && refs == old(refs)[branch := old(nextId)]
        && remoteRefs == old(remoteRefs)
        && index == tree
        && nextId == old(nextId) + 1
        && head == old(head)
        && pushQueue == old(pushQueue) + [branch]
    {
      if branch !in refs {
        return Failure(IndexError(branch));
      }
      var tip := refs[branch];
      WriteFile(filePath, Rendered(newContent));
      ResetIndex(tip);
      Stage(filePath);
      var id := CommitIndex(tip, EditMessage);
      SetRef(branch, id);
      SchedulePush(branch);
      r := Success(newContent);
    }

    /** `git checkout branch` on a clean working tree. A name known only as
        `origin/<branch>` first becomes a local branch at the remote one's
        commit, as git's default guess does; a name git knows neither way
        fails and changes nothing. */
    method Checkout(branch: string) returns (err: Option<Raised>)
      requires Valid()
      modifies this
      ensures Valid()
      ensures err.Some? <==> branch !in old(refs) && branch !in old(remoteRefs)
      ensures err.Some? ==> err.value == GitCommandError(PathspecMessage(branch)) && unchanged(this)
      ensures err.None? ==>
        var tip := if branch in old(refs) then old(refs)[branch] else old(remoteRefs)[branch];
        && refs == old(refs)[branch := tip]
        && head == branch
        && index == old(commits)[tip].tree && workTree == index
      ensures remoteRefs == old(remoteRefs) && commits == old(commits)
      ensures nextId == old(nextId) && pushQueue == old(pushQueue)
    {
      var tip: nat;
      if branch in refs {
        tip := refs[branch];
      } else if branch in remoteRefs {
        tip := remoteRefs[branch];
      } else {
        return Some(GitCommandError(PathspecMessage(branch)));
      }
      SetRefKeepsValid(refs, commits, nextId, branch, tip);
      refs, head, index, workTree := refs[branch := tip], branch, commits[tip].tree, commits[tip].tree;
      err := None;
    }

    /** The steps of `file_save` after the checkout: writes `blob` at `path`,
        stages it, makes a commit on the branch checked out (which `git
        commit` moves there) and schedules one push of that branch. */
    method CommitNewFile(path: string, blob: Blob, message: string) returns (id: nat)
      requires Valid() && head in refs
      modifies this
      ensures Valid()
      ensures id == old(nextId) && nextId == old(nextId) + 1
      ensures workTree == old(workTree)[path := blob] && index == old(index)[path := blob]
      ensures commits == old(commits)[id := Commit(index, [old(refs)[old(head)]], message)]
      ensures refs == old(refs)[old(head) := id]
      ensures remoteRefs == old(remoteRefs) && head == old(head)
      ensures pushQueue == old(pushQueue) + [old(head)]
    {
      var tip := refs[head];
      WriteFile(path, blob);
      Stage(path);
      id := CommitIndex(tip, message);
      SetRef(head, id);
      SchedulePush(head);
    }

    /** `file_save(repo, valid_branch, file_path, ..., json_schema,
        valid_folder)`: checks the branch out, writes the seed record as JSON
        indented by two, stages it, commits it on the branch with `git
        commit` and schedules one push; the path comes back. A branch known
        only on the remote is created from it by the checkout; one git does
        not know at all makes the checkout fail. */
    method FileSave(validBranch: string, filePath: string, template: set<string>, validFolder: string, now: string)
      returns (r: Result<string, Raised>)
      requires Valid()
      modifies this
      ensures Valid()
      ensures validBranch !in old(refs) && validBranch !in old(remoteRefs) ==>
                r == Failure(GitCommandError(PathspecMessage(validBranch))) && unchanged(this)
      ensures validBranch in old(refs) || validBranch in old(remoteRefs) ==>
        var tip := if validBranch in old(refs) then old(refs)[validBranch] else old(remoteRefs)[validBranch];
        var blob := Dumped(JObject(SeedRecord(template, validFolder, now)), 2);
        var tree := old(commits)[tip].tree[filePath := blob];
        && r == Success(filePath)
        && head == validBranch
        && workTree == tree && index == tree
        && commits == old(commits)[old(nextId) := Commit(tree, [tip], CreateMessage(filePath))]
        && refs == old(refs)[validBranch := old(nextId)]
        && remoteRefs == old(remoteRefs)
        && nextId == old(nextId) + 1
        && pushQueue == old(pushQueue) + [validBranch]
    {
      ghost var refs0, remote0, commits0 := refs, remoteRefs, commits;
      var err := Checkout(validBranch);
      if err.Some? {
        return Failure(err.value);
      }
      ghost var tip := if validBranch in refs0 then refs0[validBranch] else remote0[validBranch];
      assert head == validBranch && refs == refs0[validBranch := tip] && index == commits0[tip].tree;
      var blob := Dumped(JObject(SeedRecord(template, validFolder, now)), 2);
      var id := CommitNewFile(filePath, blob, CreateMessage(filePath));
      assert index == commits0[tip].tree[filePath := blob];
      r := Success(filePath);
    }
  }

  /** References point at commits, commits are numbered below `nextId`, and
      every parent is an older commit. */
  ghost predicate WellFormed(refs: map<string, nat>, commits: map<nat, Commit>, nextId: nat) {
    PointInto(refs, commits) && Ordered(commits, nextId)
  }

  /** Commits are numbered below `nextId`, and every parent is an older commit. */
  ghost predicate Ordered(commits: map<nat, Commit>, nextId: nat) {
    && (forall id :: id in commits ==> id < nextId)
    && (forall id, p :: id in commits && p in commits[id].parents ==> p in commits && p < id)
  }

  /** Every reference points at a commit. */
  ghost predicate PointInto(refs: map<string, nat>, commits: map<nat, Commit>) {
    forall name :: name in refs ==> refs[name] in commits
  }

  /** A new commit leaves every reference pointing at a commit. */
  lemma GrowKeepsPointing(refs: map<string, nat>, commits: map<nat, Commit>, id: nat, c: Commit)
    requires PointInto(refs, commits)
    ensures PointInto(refs, commits[id := c])
  {
  }

  /** `after` is `before` with at most the file at `path` replaced: every
      other path is present in both or in neither, with the same content. */
  ghost predicate ChangedOnlyAt(before: map<string, Blob>, after: map<string, Blob>, path: string) {
    && path in after
    && forall p :: p != path ==> (p in after <==> p in before) && (p in before ==> after[p] == before[p])
  }

  /** A new commit whose parents are all known keeps the history well formed. */
  lemma NewCommitKeepsValid(refs: map<string, nat>, commits: map<nat, Commit>, nextId: nat, c: Commit)
    requires WellFormed(refs, commits, nextId)
    requires forall p :: p in c.parents ==> p in commits
    ensures WellFormed(refs, commits[nextId := c], nextId + 1)
  {
    var commits' := commits[nextId := c];
    GrowKeepsPointing(refs, commits, nextId, c);
    assert forall id :: id in commits' ==> id < nextId + 1;
    forall id, p | id in commits' && p in commits'[id].parents
      ensures p in commits' && p < id
    {
      if id == nextId {
        assert p in c.parents && p in commits;
        assert p < nextId;
      } else {
        assert id in commits && commits'[id] == commits[id];
        assert p in commits && p < id;
      }
    }
    assert Ordered(commits', nextId + 1);
  }

  /** Moving a reference to a known commit keeps the history well formed. */
  lemma SetRefKeepsValid(refs: map<string, nat>, commits: map<nat, Commit>, nextId: nat, name: string, id: nat)
    requires WellFormed(refs, commits, nextId) && id in commits
    ensures WellFormed(refs[name := id], commits, nextId)
  {
    var refs' := refs[name := id];
    forall n | n in refs'
      ensures refs'[n] in commits
    {
      if n != name {
        assert refs'[n] == refs[n];
      }
    }
    assert PointInto(refs', commits);
  }

  /** With `v/1.0` checked out, saving to `v/2.0` as the code does drags
      `v/1.0` along: it leaves its own tip for the new commit of `v/2.0`. */
  method EditMovesCheckedOutBranch() returns (before: nat, after: nat, edited: nat)
    ensures after == edited && after != before
  {
    var repo := new Repo("v/1.0", map[], {});
    repo.SetRef("v/2.0", 0);
    before := repo.refs["v/1.0"];
    var r := repo.EditAndSaveContent("v/2.0", "food/x.json", JStr("x"));
    after := repo.refs["v/1.0"];
    edited := repo.refs["v/2.0"];
  }

  /** The same save made with `head=False` leaves `v/1.0` where it was. */
  method EditKeepsCheckedOutBranch() returns (before: nat, after: nat, edited: nat)
    ensures after == before && edited != before
  {
    var repo := new Repo("v/1.0", map[], {});
    repo.SetRef("v/2.0", 0);
    before := repo.refs["v/1.0"];
    var r := repo.EditAndSaveContentKeepingHead("v/2.0", "food/x.json", JStr("x"));
    after := repo.refs["v/1.0"];
    edited := repo.refs["v/2.0"];
  }

  /** A branch known only as `origin/v/2.0` is created by the checkout of
      `file_save`, and the new file is committed on it. */
  method RemoteOnlyBranchSaved() returns (r: Result<string, Raised>, created: bool, onBranch: bool)
    ensures r == Success("food/x.json") && created && onBranch
  {
    var repo := new Repo("v/1.0", map[], {"v/1.0", "v/2.0"});
    r := repo.FileSave("v/2.0", "food/x.json", {"category"}, "food", "now");
    created := "v/2.0" in repo.refs;
    onBranch := created && "food/x.json" in repo.commits[repo.refs["v/2.0"]].tree && repo.head == "v/2.0";
  }

  // ---------------------------------------------------------------------
  // check_file_existence
  // ---------------------------------------------------------------------

  /** A git command the check runs, with its arguments. */
  datatype GitCall =
    | Fetch(remote: string, branch: string)
    | LsTree(treeish: string)
    | CheckoutBranch(branch: string)
    | Pull(remote: string, branch: string)

  /** The git commands run, in order, and the pair returned or the exception raised. */
  datatype Existence = Existence(calls: seq<GitCall>, outcome: Result<(bool, bool), Raised>)

  const BadRequest: nat := 400

  function RemoteCheckFailed(error: string): string {
    "Error checking remote files: " + error
  }

  function InBothMessage(filePath: string, branch: string): string {
    "File '" + filePath + "' already exists in branch '" + branch + "'"
  }

  function FetchedMessage(filePath: string): string {
    "File '" + filePath + "' exists in remote but was missing locally. Fetched from remote."
  }

  function LocalOnlyMessage(filePath: string): string {
    "File '" + filePath + "' exists locally but not in remote. Please sync first."
  }

  /** The case analysis on where the file was found: the commands it runs
      and what it returns or raises. */
  function Decide(inLocal: bool, inRemote: bool, branch: string, filePath: string)
    : (r: (seq<GitCall>, Result<(bool, bool), Raised>))
    ensures r.1.Success? <==> !inLocal && !inRemote
    ensures r.1.Success? ==> r.1.value == (inLocal, inRemote) == (false, false)
    ensures r.1.Failure? ==> r.1.error.HttpException? && r.1.error.status == BadRequest
    ensures r.0 != [] <==> !inLocal && inRemote
    ensures r.0 != [] ==> r.0 == [CheckoutBranch(branch), Pull("origin", branch)]
  {
    if inLocal && inRemote then
      ([], Failure(HttpException(BadRequest, InBothMessage(filePath, branch))))
    else if !inLocal && inRemote then
      ([CheckoutBranch(branch), Pull("origin", branch)], Failure(HttpException(BadRequest, FetchedMessage(filePath))))
    else if inLocal && !inRemote then
      ([], Failure(HttpException(BadRequest, LocalOnlyMessage(filePath))))
    else
      ([], Success((inLocal, inRemote)))
  }

  /** `check_file_existence(repo, branch, file_path, repo_path)`: `fetch` and
      `lsTree` are how `git fetch origin <branch>` and `git ls-tree -r
      origin/<branch> --name-only` end; `disk` is what `os.path.exists` sees.
      A failed fetch propagates; a failed listing becomes a 400; a file in
      both places, only in the remote (after a checkout and pull) or only on
      disk is refused with a 400; otherwise `(False, False)` comes back. */
  function CheckFileExistence(branch: string, filePath: string, repoPath: string,
                              fetch: Run, lsTree: Run, disk: Disk): (r: Existence)
    ensures fetch.Failed? ==> r == Existence([Fetch("origin", branch)], Failure(GitCommandError(fetch.stderr)))
    ensures fetch.Completed? && lsTree.Failed? ==>
              r.outcome == Failure(HttpException(BadRequest, RemoteCheckFailed(lsTree.stderr)))
    ensures fetch.Completed? ==> |r.calls| >= 2 && r.calls[..2] == [Fetch("origin", branch), LsTree("origin/" + branch)]
    ensures r.outcome.Success? <==>
              fetch.Completed? && lsTree.Completed? && !disk.Exists(repoPath + "/" + filePath)
              && filePath !in SplitLines(lsTree.stdout)
    ensures r.outcome.Success? ==> r.outcome.value == (false, false)
    ensures r.outcome.Failure? && r.outcome.error.HttpException? ==> r.outcome.error.status == BadRequest
    ensures |r.calls| > 2 <==>
              fetch.Completed? && lsTree.Completed? && !disk.Exists(repoPath + "/" + filePath)
              && filePath in SplitLines(lsTree.stdout)
    ensures |r.calls| > 2 ==> r.calls[2..] == [CheckoutBranch(branch), Pull("origin", branch)]
  {
    var fetched := [Fetch("origin", branch)];
    if fetch.Failed? then Existence(fetched, Failure(GitCommandError(fetch.stderr)))
    else
      var listed := fetched + [LsTree("origin/" + branch)];
      match lsTree
      case Failed(error) => Existence(listed, Failure(HttpException(BadRequest, RemoteCheckFailed(error))))
      case Completed(stdout) =>
        var d := Decide(disk.Exists(repoPath + "/" + filePath), filePath in SplitLines(stdout), branch, filePath);
        Existence(listed + d.0, d.1)
  }

  /** A file both on disk and in the remote branch is refused. */
  lemma InBothRefused(branch: string, filePath: string, repoPath: string, stdout: string, disk: Disk)
    requires disk.Exists(repoPath + "/" + filePath) && filePath in SplitLines(stdout)
    ensures CheckFileExistence(branch, filePath, repoPath, Completed([]), Completed(stdout), disk)
            == Existence([Fetch("origin", branch), LsTree("origin/" + branch)],
                         Failure(HttpException(BadRequest, InBothMessage(filePath, branch))))
  {
  }

  /** A file only in the remote is refused too, but only after the branch has
      been checked out and pulled. */
  lemma RemoteOnlyFetched(branch: string, filePath: string, repoPath: string, fetched: string, stdout: string, disk: Disk)
    requires !disk.Exists(repoPath + "/" + filePath) && filePath in SplitLines(stdout)
    ensures var r := CheckFileExistence(branch, filePath, repoPath, Completed(fetched), Completed(stdout), disk);
      && r.outcome == Failure(HttpException(BadRequest, FetchedMessage(filePath)))
      && r.calls == [Fetch("origin", branch), LsTree("origin/" + branch), CheckoutBranch(branch), Pull("origin", branch)]
  {
  }

  /** A file only on disk is refused until it is synced. */
  lemma LocalOnlyRefused(branch: string, filePath: string, repoPath: string, fetched: string, stdout: string, disk: Disk)
    requires disk.Exists(repoPath + "/" + filePath) && filePath !in SplitLines(stdout)
    ensures CheckFileExistence(branch, filePath, repoPath, Completed(fetched), Completed(stdout), disk).outcome
            == Failure(HttpException(BadRequest, LocalOnlyMessage(filePath)))
  {
  }

  /** The only way through: the file is in neither place, and nothing but
      the fetch and the listing was run. */
  lemma NeitherAccepted(branch: string, filePath: string, repoPath: string, fetched: string, stdout: string, disk: Disk)
    requires !disk.Exists(repoPath + "/" + filePath) && filePath !in SplitLines(stdout)
    ensures CheckFileExistence(branch, filePath, repoPath, Completed(fetched), Completed(stdout), disk)
            == Existence([Fetch("origin", branch), LsTree("origin/" + branch)], Success((false, false)))
  {
  }
}
