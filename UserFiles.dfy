/** `UserFileService`: the per-user project tree under the storage root
    `basePath/User_<userId>/Project_<projectId>`, with its four fixed subdirectories, the
    source files under `SourceCode`, and the removal of a whole project. */
module UserFiles {
  import opened Outcomes
  import opened Strings
  import opened FileSystem

  /** The configuration key of the storage root, and the root used when it is absent. */
  const BasePathKey := "FileStorage:Basepath"
  const DefaultBasePath := "D:/CompilerApp/StoredFiles"

  /** The subdirectories every project directory gets, in creation order. */
  const SubDirs := ["SourceCode", "Inputs", "Outputs", "Logs"]

  const SourceCodeDirectory := "SourceCode"

  /** The status codes of `DeleteProjectDirectoriesAsync`. */
  const Success := 0
  const DirNotFound := 1
  const ErrorDeleting := 2
  const UserIdNullOrEmpty := 3

  class UserFileService {
    const basePath: string

    /** `configuration["FileStorage:Basepath"] ?? "D:/CompilerApp/StoredFiles"`. */
    constructor (configuration: map<string, string>)
      ensures BasePathKey in configuration ==> basePath == configuration[BasePathKey]
      ensures BasePathKey !in configuration ==> basePath == DefaultBasePath
    {
      basePath := if BasePathKey in configuration then configuration[BasePathKey] else DefaultBasePath;
    }

    /** `GetProjectDirectoryPath`: the storage root, then the user's and the project's
        directory names. */
    function GetProjectDirectoryPath(userId: string, projectId: int): (p: Path)
      ensures |p| == 3 && p[0] == basePath
    {
      [basePath, "User_" + userId, "Project_" + IntToString(projectId)]
    }

    /** The file `CreateFile` targets:
        `Path.Combine(projectDirectory, "SourceCode", directory) + "\\" + fileName + fileExtension`,
        where an empty `directory` adds no segment and the backslash always starts one more,
        which is empty (a trailing separator) when the name and the extension both are. */
    function SourceFilePath(userId: string, projectId: int, fileName: string, fileExtension: string,
                            directory: string): (p: Path)
      ensures Under(p, GetProjectDirectoryPath(userId, projectId) + [SourceCodeDirectory])
      ensures EndsInSeparator(p) <==> fileName + fileExtension == ""
    {
      Combine(GetProjectDirectoryPath(userId, projectId) + [SourceCodeDirectory], directory) + [fileName + fileExtension]
    }

    /** `if (!Directory.Exists(p)) Directory.CreateDirectory(p)`. */
    static function EnsureDir(t: Tree, refused: set<Path>, p: Path): (Tree, bool) {
      if DirExists(t, p) then (t, true) else Mkdir(t, refused, p)
    }

    /** The `foreach` over the subdirectory names: ensures each `dir + [name]` in turn and
        stops at the first that throws, naming it. */
    static function EnsureSubDirs(t: Tree, refused: set<Path>, dir: Path, names: seq<string>): (Tree, Option<Path>)
      decreases |names|
    {
      if names == [] then (t, None)
      else
        var (t1, failed) := EnsureSubDirs(t, refused, dir, names[..|names| - 1]);
        if failed.Some? then (t1, failed)
        else
          var sub := dir + [names[|names| - 1]];
          var (t2, ok) := EnsureDir(t1, refused, sub);
          if ok then (t2, None) else (t2, Some(sub))
    }

    /** One more turn of the loop after a prefix that succeeded. */
    static lemma EnsureSubDirsStep(t: Tree, refused: set<Path>, dir: Path, names: seq<string>, i: nat, u: Tree)
      requires i < |names| && EnsureSubDirs(t, refused, dir, names[..i]) == (u, None)
      ensures var (u2, ok) := EnsureDir(u, refused, dir + [names[i]]);
        EnsureSubDirs(t, refused, dir, names[..i + 1]) == (u2, if ok then None else Some(dir + [names[i]]))
    {
      assert names[..i + 1][..i] == names[..i];
    }

    /** The loop stops at the first failure: once a prefix of the names fails, so do all. */
    static lemma {:induction false} EnsureSubDirsStops(t: Tree, refused: set<Path>, dir: Path, names: seq<string>, k: nat)
      requires k <= |names|
      requires EnsureSubDirs(t, refused, dir, names[..k]).1.Some?
      ensures EnsureSubDirs(t, refused, dir, names) == EnsureSubDirs(t, refused, dir, names[..k])
      decreases |names|
    {
      if k < |names| {
        var front := names[..|names| - 1];
        assert front[..k] == names[..k];
        EnsureSubDirsStops(t, refused, dir, front, k);
      } else {
        assert names[..k] == names;
      }
    }

    /** What `CreateDefaultProjectDirectoriesAsync` does and how it ends. */
    function CreateDefaultSpec(t: Tree, refused: set<Path>, userId: string, projectId: int): (Tree, Outcome<Unit>) {
      if IsNullOrEmpty(userId) then (t, Thrown(ArgumentNullException("userId")))
      else
        var dir := GetProjectDirectoryPath(userId, projectId);
        var (t1, ok) := EnsureDir(t, refused, dir);
        if !ok then (t1, Thrown(IOException(dir)))
        else
          var (t2, failed) := EnsureSubDirs(t1, refused, dir, SubDirs);
          if failed.Some? then (t2, Thrown(IOException(failed.value))) else (t2, Normal(Unit))
    }

    /** What `CreateFile` does and how it ends. */
    function CreateFileSpec(t: Tree, refused: set<Path>, userId: string, projectId: int,
                            fileName: string, fileExtension: string, directory: string): (Tree, Outcome<Unit>)
    {
      if IsNullOrEmpty(userId) then (t, Thrown(ArgumentNullException("userId")))
      else
        var path := SourceFilePath(userId, projectId, fileName, fileExtension, directory);
        if IsFile(t, path) then (t, Normal(Unit))
        else
          var (t2, ok) := WriteFile(t, refused, path, "");
          if ok then (t2, Normal(Unit)) else (t2, Thrown(IOException(path)))
    }

    /** `CreateDefaultProjectDirectoriesAsync(userId, projectId)`. */
    method CreateDefaultProjectDirectories(fs: Disk, userId: string, projectId: int) returns (r: Outcome<Unit>)
      requires fs.Valid()
      modifies fs
      ensures fs.Valid()
      ensures (fs.entries, r) == CreateDefaultSpec(old(fs.entries), fs.refused, userId, projectId)
    {
      if IsNullOrEmpty(userId) {
        return Thrown(ArgumentNullException("userId"));
      }
      var projectDirectoryPath := GetProjectDirectoryPath(userId, projectId);
      if !fs.DirectoryExists(projectDirectoryPath) {
        var made := fs.CreateDirectory(projectDirectoryPath);
        if !made {
          return Thrown(IOException(projectDirectoryPath));
        }
      }
      var failed := CreateSubDirectories(fs, projectDirectoryPath, SubDirs);
      if failed.Some? {
        return Thrown(IOException(failed.value));
      }
      r := Normal(Unit);
    }

    /** The `foreach` over `subDirs`: each missing subdirectory is created in turn; the first
        that cannot be created ends the loop, and its path is returned. */
    static method CreateSubDirectories(fs: Disk, dir: Path, names: seq<string>) returns (failed: Option<Path>)
      requires fs.Valid()
      modifies fs
      ensures fs.Valid()
      ensures (fs.entries, failed) == EnsureSubDirs(old(fs.entries), fs.refused, dir, names)
    {
      var i := 0;
      while i < |names|
        invariant 0 <= i <= |names|
        invariant fs.Valid()
        invariant EnsureSubDirs(old(fs.entries), fs.refused, dir, names[..i]) == (fs.entries, None)
      {
        EnsureSubDirsStep(old(fs.entries), fs.refused, dir, names, i, fs.entries);
        var subDirPath := dir + [names[i]];
        if !fs.DirectoryExists(subDirPath) {
          var made := fs.CreateDirectory(subDirPath);
          if !made {
            EnsureSubDirsStops(old(fs.entries), fs.refused, dir, names, i + 1);
            return Some(subDirPath);
          }
        }
        i := i + 1;
      }
      assert names[..i] == names;
      failed := None;
    }

    /** `CreateFile(userId, projectId, fileName, fileExtension, directory)`. */
    method CreateFile(fs: Disk, userId: string, projectId: int, fileName: string, fileExtension: string,
                      directory: string) returns (r: Outcome<Unit>)
      requires fs.Valid()
      modifies fs
      ensures fs.Valid()
      ensures (fs.entries, r) == CreateFileSpec(old(fs.entries), fs.refused, userId, projectId, fileName, fileExtension, directory)
    {
      if IsNullOrEmpty(userId) {
        return Thrown(ArgumentNullException("userId"));
      }
      var fullFilePath := SourceFilePath(userId, projectId, fileName, fileExtension, directory);
      if !fs.FileExists(fullFilePath) {
        var created := fs.WriteAllText(fullFilePath, "");
        if !created {
          return Thrown(IOException(fullFilePath));
        }
      }
      r := Normal(Unit);
    }

    /** The `foreach` over `Directory.GetFiles(dir)`: deletes the listed files one by one and
        stops at the first that cannot be deleted. Only listed files are removed, all of them
        deletable files directly inside `dir`; on success exactly the listed files are gone,
        and a failure means `dir` held an undeletable file. */
    static method DeleteFiles(fs: Disk, dir: Path, files: seq<Path>) returns (ok: bool, ghost gone: set<Path>)
      requires fs.Valid()
      requires forall i :: 0 <= i < |files| ==> files[i] in ChildFiles(fs.entries, dir)
      requires forall i, j :: 0 <= i < j < |files| ==> files[i] != files[j]
      modifies fs
      ensures fs.Valid()
      ensures fs.entries == old(fs.entries) - gone
      ensures forall q :: q in gone ==> q !in fs.undeletable && Under(q, dir) && |q| == |dir| + 1
      ensures forall q :: q in gone ==> q in files
      ensures ok ==> gone == set k | 0 <= k < |files| :: files[k]
      ensures ok ==> forall i :: 0 <= i < |files| ==> files[i] !in fs.entries
      ensures !ok ==> Pinned(old(fs.entries), fs.undeletable, dir)
    {
      gone := {};
      var i := 0;
      while i < |files|
        invariant 0 <= i <= |files|
        invariant fs.Valid()
        invariant gone == set k | 0 <= k < i :: files[k]
        invariant fs.entries == old(fs.entries) - gone
        invariant forall q :: q in gone ==> q !in fs.undeletable && Under(q, dir) && |q| == |dir| + 1
      {
        assert files[i] in ChildFiles(old(fs.entries), dir);
        assert files[i] !in gone;
        var deleted := fs.Delete(files[i]);
        if !deleted {
          assert files[i] in fs.undeletable && files[i] in old(fs.entries) && Under(files[i], dir);
          return false, gone;
        }
        gone := gone + {files[i]};
        i := i + 1;
      }
      ok := true;
    }

    /** `DeleteProjectDirectoriesAsync(userId, projectId)`: delete the project directory's own
        files one by one, then the directory recursively; status 0 on success, 1 when there
        is no such directory, 2 when anything in the `try` throws. */
    method DeleteProjectDirectories(fs: Disk, userId: string, projectId: int) returns (r: Outcome<int>)
      requires fs.Valid()
      modifies fs
      ensures fs.Valid()
      ensures IsNullOrEmpty(userId) ==> r == Thrown(ArgumentNullException("userId")) && fs.entries == old(fs.entries)
      ensures !IsNullOrEmpty(userId) ==> r.Normal? && 0 <= r.value <= 2
      ensures !IsNullOrEmpty(userId) ==>
        var dir := GetProjectDirectoryPath(userId, projectId);
        && (r.value == DirNotFound <==> !DirExists(old(fs.entries), dir))
        && (r.value == Success <==> DirExists(old(fs.entries), dir) && !Pinned(old(fs.entries), fs.undeletable, dir))
        && (r.value == Success ==> fs.entries == Without(old(fs.entries), dir))
        && (r.value == DirNotFound ==> fs.entries == old(fs.entries))
        && (r.value == ErrorDeleting ==>
              && fs.entries.Keys <= old(fs.entries).Keys
              && (forall q :: q in fs.entries ==> fs.entries[q] == old(fs.entries)[q])
              && SameOutside(old(fs.entries), fs.entries, dir)
              && forall q :: q in old(fs.entries) && q in fs.undeletable ==> q in fs.entries)
    {
      if IsNullOrEmpty(userId) {
        // `return USERIDNULLOREMPTY` after the throw is never reached
        return Thrown(ArgumentNullException("userId"));
      }
      var projectDirectoryPath := GetProjectDirectoryPath(userId, projectId);
      if !fs.DirectoryExists(projectDirectoryPath) {
        return Normal(DirNotFound);
      }
      var listing := fs.GetFiles(projectDirectoryPath);
      ghost var gone;
      var deleted;
      deleted, gone := DeleteFiles(fs, projectDirectoryPath, listing.value);
      if !deleted {
        return Normal(ErrorDeleting);
      }
      RemoveDeletableBelow(old(fs.entries), fs.undeletable, gone, projectDirectoryPath);
      assert projectDirectoryPath !in gone;
      assert DirExists(fs.entries, projectDirectoryPath);
      ghost var before := fs.entries;
      DeleteTreeSpec(before, fs.undeletable, projectDirectoryPath);
      var removed := fs.DeleteDirectory(projectDirectoryPath);
      if !removed {
        assert Pinned(old(fs.entries), fs.undeletable, projectDirectoryPath);
        return Normal(ErrorDeleting);
      }
      assert fs.entries == Without(old(fs.entries), projectDirectoryPath);
      r := Normal(Success);
    }

    // -------------------------------------------------------------------------------------
    // Properties

    /** Distinct users, or distinct projects of one user, get distinct directories. */
    lemma ProjectPathsDistinct(u1: string, p1: int, u2: string, p2: int)
      ensures GetProjectDirectoryPath(u1, p1) == GetProjectDirectoryPath(u2, p2) <==> u1 == u2 && p1 == p2
    {
      if GetProjectDirectoryPath(u1, p1) == GetProjectDirectoryPath(u2, p2) {
        PrefixCancel("User_", u1, u2);
        PrefixCancel("Project_", IntToString(p1), IntToString(p2));
        IntToStringInjective(p1, p2);
      }
    }

    /** Ensuring a directory keeps every entry, keeps the tree well formed, succeeds exactly
        when the directory can be created (or exists) and leaves it in place. */
    static lemma EnsureDirSpec(t: Tree, refused: set<Path>, p: Path)
      requires WellFormed(t)
      ensures var (t2, ok) := EnsureDir(t, refused, p);
        && Extends(t, t2) && WellFormed(t2)
        && (ok <==> Creatable(t, refused, p))
        && (ok ==> DirExists(t2, p))
    {
      if DirExists(t, p) {
        MkdirExisting(t, refused, p);
      }
      MkdirSucceeds(t, refused, p);
      MkdirAddsAncestors(t, refused, p);
      MkdirWellFormed(t, refused, p);
    }

    static lemma {:induction false} EnsureSubDirsSpec(t: Tree, refused: set<Path>, dir: Path, names: seq<string>)
      requires WellFormed(t)
      ensures var (t2, failed) := EnsureSubDirs(t, refused, dir, names);
        && Extends(t, t2) && WellFormed(t2)
        && (failed.None? ==> forall j :: 0 <= j < |names| ==> DirExists(t2, dir + [names[j]]))
        && (failed.Some? ==> exists j :: 0 <= j < |names| && failed.value == dir + [names[j]])
      decreases |names|
    {
      if names != [] {
        var front := names[..|names| - 1];
        EnsureSubDirsSpec(t, refused, dir, front);
        var (t1, failed) := EnsureSubDirs(t, refused, dir, front);
        if failed.None? {
          EnsureDirSpec(t1, refused, dir + [names[|names| - 1]]);
          var (t2, ok) := EnsureDir(t1, refused, dir + [names[|names| - 1]]);
          if ok {
            forall j | 0 <= j < |names| ensures DirExists(t2, dir + [names[j]]) {
              if j < |names| - 1 {
                assert names[j] == front[j];
              }
            }
          }
        } else {
          var j :| 0 <= j < |front| && failed.value == dir + [front[j]];
          assert front[j] == names[j];
        }
      }
    }

    static lemma {:induction false} EnsureSubDirsExisting(t: Tree, refused: set<Path>, dir: Path, names: seq<string>)
      requires forall j :: 0 <= j < |names| ==> DirExists(t, dir + [names[j]])
      ensures EnsureSubDirs(t, refused, dir, names) == (t, None)
      decreases |names|
    {
      if names != [] {
        var front := names[..|names| - 1];
        assert forall j :: 0 <= j < |front| ==> front[j] == names[j];
        EnsureSubDirsExisting(t, refused, dir, front);
      }
    }

    /** `CreateDefaultProjectDirectoriesAsync` never removes or changes an entry; an empty
        user id is rejected before anything happens; a project directory that cannot be
        created is reported; and on success the project directory and all four
        subdirectories exist. */
    lemma DefaultDirectoriesCreated(t: Tree, refused: set<Path>, userId: string, projectId: int)
      requires WellFormed(t)
      ensures var (t2, r) := CreateDefaultSpec(t, refused, userId, projectId);
        var dir := GetProjectDirectoryPath(userId, projectId);
        && Extends(t, t2) && WellFormed(t2)
        && (IsNullOrEmpty(userId) ==> t2 == t && r == Thrown(ArgumentNullException("userId")))
        && (!IsNullOrEmpty(userId) && !Creatable(t, refused, dir) ==> r == Thrown(IOException(dir)))
        && (r.Thrown? && !IsNullOrEmpty(userId) ==> r.error.IOException? && Under(r.error.path, dir))
        && (r.Normal? ==> DirExists(t2, dir) && forall s :: s in SubDirs ==> DirExists(t2, dir + [s]))
    {
      if !IsNullOrEmpty(userId) {
        var dir := GetProjectDirectoryPath(userId, projectId);
        EnsureDirSpec(t, refused, dir);
        var (t1, ok) := EnsureDir(t, refused, dir);
        if ok {
          EnsureSubDirsSpec(t1, refused, dir, SubDirs);
          var (t2, failed) := EnsureSubDirs(t1, refused, dir, SubDirs);
          if failed.Some? {
            var j :| 0 <= j < |SubDirs| && failed.value == dir + [SubDirs[j]];
            assert Under(failed.value, dir);
          } else {
            forall s | s in SubDirs ensures DirExists(t2, dir + [s]) {
              var j :| 0 <= j < |SubDirs| && SubDirs[j] == s;
            }
          }
        }
      }
    }

    /** Ensuring a directory again on what the first attempt left changes nothing more and
        ends the same way. */
    static lemma EnsureDirIdempotent(t: Tree, refused: set<Path>, p: Path)
      requires WellFormed(t)
      ensures var (t2, ok) := EnsureDir(t, refused, p);
        EnsureDir(t2, refused, p) == (t2, ok)
    {
      if !DirExists(t, p) {
        MkdirIdempotent(t, refused, p);
        MkdirWellFormed(t, refused, p);
        var (t2, ok) := Mkdir(t, refused, p);
        if DirExists(t2, p) {
          MkdirExisting(t2, refused, p);
        }
      }
    }

    /** Running the subdirectory loop again on what it left stops at the same name, or
        succeeds again, and changes nothing more. */
    static lemma {:induction false} EnsureSubDirsIdempotent(t: Tree, refused: set<Path>, dir: Path, names: seq<string>)
      requires WellFormed(t)
      ensures var (t2, failed) := EnsureSubDirs(t, refused, dir, names);
        EnsureSubDirs(t2, refused, dir, names) == (t2, failed)
      decreases |names|
    {
      if names != [] {
        var front := names[..|names| - 1];
        EnsureSubDirsIdempotent(t, refused, dir, front);
        EnsureSubDirsSpec(t, refused, dir, front);
        var (t1, failed) := EnsureSubDirs(t, refused, dir, front);
        if failed.None? {
          var sub := dir + [names[|names| - 1]];
          EnsureDirSpec(t1, refused, sub);
          EnsureDirIdempotent(t1, refused, sub);
          var t2 := EnsureDir(t1, refused, sub).0;
          EnsureSubDirsExisting(t2, refused, dir, front);
        }
      }
    }

    /** Running `CreateDefaultProjectDirectoriesAsync` again on what a first call left
        changes nothing more and ends the same way: success again after a success, and the
        same exception after a failure. */
    lemma DefaultDirectoriesIdempotent(t: Tree, refused: set<Path>, userId: string, projectId: int)
      requires WellFormed(t)
      ensures var (t2, r) := CreateDefaultSpec(t, refused, userId, projectId);
        CreateDefaultSpec(t2, refused, userId, projectId) == (t2, r)
    {
      if !IsNullOrEmpty(userId) {
        var dir := GetProjectDirectoryPath(userId, projectId);
        EnsureDirSpec(t, refused, dir);
        EnsureDirIdempotent(t, refused, dir);
        var (t1, ok) := EnsureDir(t, refused, dir);
        if ok {
          EnsureSubDirsSpec(t1, refused, dir, SubDirs);
          EnsureSubDirsIdempotent(t1, refused, dir, SubDirs);
          var t2 := EnsureSubDirs(t1, refused, dir, SubDirs).0;
          assert DirExists(t2, dir);
        }
      }
    }

    /** `CreateFile` never overwrites: an existing file is left as it is; otherwise the one
        empty file is added, exactly when its directory exists, the path names a file and it
        may be written, and a failure changes nothing. An empty name and extension leave a
        trailing separator, so the call throws. */
    lemma CreateFileEffect(t: Tree, refused: set<Path>, userId: string, projectId: int,
                           fileName: string, fileExtension: string, directory: string)
      requires WellFormed(t)
      ensures var (t2, r) := CreateFileSpec(t, refused, userId, projectId, fileName, fileExtension, directory);
        var path := SourceFilePath(userId, projectId, fileName, fileExtension, directory);
        && WellFormed(t2)
        && (IsNullOrEmpty(userId) ==> t2 == t && r == Thrown(ArgumentNullException("userId")))
        && (r.Thrown? ==> t2 == t)
        && (!IsNullOrEmpty(userId) && IsFile(t, path) ==> t2 == t && r.Normal?)
        && (r.Normal? ==> IsFile(t2, path))
        && (r.Normal? && !IsFile(t, path) ==> path !in t && t2 == t[path := File("")])
        && (!IsNullOrEmpty(userId) && !IsFile(t, path) ==>
              (r.Normal? <==> DirExists(t, Parent(path)) && path !in t && !EndsInSeparator(path) && path !in refused))
        && (!IsNullOrEmpty(userId) && fileName + fileExtension == "" ==> r == Thrown(IOException(path)))
    {
      if !IsNullOrEmpty(userId) {
        var path := SourceFilePath(userId, projectId, fileName, fileExtension, directory);
        if IsFile(t, path) {
          assert CreateFileSpec(t, refused, userId, projectId, fileName, fileExtension, directory) == (t, Normal(Unit));
        } else {
          WriteFileSpec(t, refused, path, "");
          var (t2, ok) := WriteFile(t, refused, path, "");
          assert CreateFileSpec(t, refused, userId, projectId, fileName, fileExtension, directory)
            == (t2, if ok then Normal(Unit) else Thrown(IOException(path)));
          assert !EndsInSeparator(path) ==> (!DirExists(t, path) <==> path !in t);
        }
      }
    }
  }
}
