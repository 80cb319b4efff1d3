/** backend/utils/file.py: the guards a file or folder path passes before
    the repository is touched. Whether a path exists is read from a `Disk`. */
module FileUtils {
  import opened PyStr
  import opened Outcomes

  const NumberMessage: string := "File path cannot be a number"
  const FileEmptyMessage: string := "File path cannot be empty or null"
  const FolderEmptyMessage: string := "Folder path cannot be empty or null"

  function MissingFileMessage(fullPath: string): string {
    "File '" + fullPath + "' does not exist in the repository"
  }

  function MissingFolderMessage(fullPath: string): string {
    "Folder '" + fullPath + "' does not exist in the repository"
  }

  /** `not p or p.lower() == 'null'` */
  predicate IsEmptyOrNull(p: string)
    ensures p == [] ==> IsEmptyOrNull(p)
    ensures IsEmptyOrNull(p) ==> |p| == 0 || |p| == 4
  {
    p == [] || Lower(p) == "null"
  }

  /** `validate_file_path(file_path, repo_path)`: a number is refused first,
      then an empty or `null` path, then one that does not exist below
      `repo_path`; otherwise the path comes back as it was given. */
  function ValidateFilePath(filePath: string, repoPath: string, disk: Disk): (r: Result<string, Raised>)
    ensures IsDigit(filePath) ==> r == Failure(Exception(NumberMessage))
    ensures !IsDigit(filePath) && IsEmptyOrNull(filePath) ==> r == Failure(Exception(FileEmptyMessage))
    ensures !IsDigit(filePath) && !IsEmptyOrNull(filePath) && !disk.Exists(PathJoin(repoPath, filePath)) ==>
              r == Failure(Exception(MissingFileMessage(PathJoin(repoPath, filePath))))
    ensures r.Success? <==> !IsDigit(filePath) && !IsEmptyOrNull(filePath) && disk.Exists(PathJoin(repoPath, filePath))
    ensures r.Success? ==> r.value == filePath
  {
    var fullPath := PathJoin(repoPath, filePath);
    if IsDigit(filePath) then Failure(Exception(NumberMessage))
    else if IsEmptyOrNull(filePath) then Failure(Exception(FileEmptyMessage))
    else if !disk.Exists(fullPath) then Failure(Exception(MissingFileMessage(fullPath)))
    else Success(filePath)
  }

  /** `validate_folder_path(folder_path, repo_path)`: the same guards without
      the one against numbers. */
  function ValidateFolderPath(folderPath: string, repoPath: string, disk: Disk): (r: Result<string, Raised>)
    ensures IsEmptyOrNull(folderPath) ==> r == Failure(Exception(FolderEmptyMessage))
    ensures !IsEmptyOrNull(folderPath) && !disk.Exists(PathJoin(repoPath, folderPath)) ==>
              r == Failure(Exception(MissingFolderMessage(PathJoin(repoPath, folderPath))))
    ensures r.Success? <==> !IsEmptyOrNull(folderPath) && disk.Exists(PathJoin(repoPath, folderPath))
    ensures r.Success? ==> r.value == folderPath
  {
    var fullPath := PathJoin(repoPath, folderPath);
    if IsEmptyOrNull(folderPath) then Failure(Exception(FolderEmptyMessage))
    else if !disk.Exists(fullPath) then Failure(Exception(MissingFolderMessage(fullPath)))
    else Success(folderPath)
  }

  /** Off the digit rule the two validators accept the same paths. */
  lemma FileAndFolderAgree(p: string, repoPath: string, disk: Disk)
    requires !IsDigit(p)
    ensures ValidateFilePath(p, repoPath, disk).Success? <==> ValidateFolderPath(p, repoPath, disk).Success?
  {
  }

  /** An all-digit folder that exists is accepted, while the same string as a
      file path is refused for being a number, whatever the disk holds. */
  lemma DigitsOnlyFolder(p: string, repoPath: string, disk: Disk)
    requires IsDigit(p) && disk.Exists(PathJoin(repoPath, p))
    ensures ValidateFolderPath(p, repoPath, disk) == Success(p)
    ensures ValidateFilePath(p, repoPath, disk) == Failure(Exception(NumberMessage))
  {
    assert Lower(p) != "null" by {
      assert IsDigitChar(p[0]) && Lower(p)[0] == p[0];
    }
  }

  /** `null` is refused in every spelling of its letters. */
  lemma NullInAnyCase(p: string, repoPath: string, disk: Disk)
    requires Lower(p) == "null"
    ensures ValidateFilePath(p, repoPath, disk) == Failure(Exception(FileEmptyMessage))
    ensures ValidateFolderPath(p, repoPath, disk) == Failure(Exception(FolderEmptyMessage))
  {
    assert Lower(p)[0] == 'n' && !IsDigitChar(p[0]);
  }

  /** `NULL`, `Null` and `null` all lower-case to `null`. */
  lemma NullSpellings()
    ensures Lower("NULL") == "null" && Lower("Null") == "null" && Lower("null") == "null"
  {
  }

  /** An absolute path is looked up as it stands, not below the repository. */
  lemma AbsolutePathLookedUpAsIs(p: string, repoPath: string, disk: Disk)
    requires p != [] && p[0] == '/' && !disk.Exists(p)
    ensures ValidateFilePath(p, repoPath, disk) == Failure(Exception(MissingFileMessage(p)))
  {
    assert !IsDigitChar(p[0]);
    assert Lower(p)[0] == '/';
  }
}
