# SharedInternetIDE services in Dafny

This project models the server-side services of SharedInternetIDE, a web IDE. Users keep
C, C++ and Java projects in it and have them compiled and run in a locked-down `docker`
container. Four pieces are modelled.

- **`CompilerService.CompileCodeAsync`** (module `CompilerService`, `Compiler.dfy`). It
  resolves the language tag case-insensitively to a compiler image and to a build-and-run
  script. It creates a per-session workspace under the temporary directory and writes the
  submitted file into it. It then builds the `docker run` argument vector by successive
  `ArgumentList.Add` calls on a `ProcessStartInfo` and runs the container. The exit code
  becomes a `CompilationResult`, and the `finally` block removes the workspace recursively.
- **`UserFileService`** (module `UserFiles`, `UserFiles.dfy`). It covers the storage root
  and its default, the `basePath/User_<id>/Project_<id>` layout, and the creation of the
  four default subdirectories. It also covers creating an empty source file and the
  file-by-file, then recursive, deletion of a project with status codes 0/1/2.
- **`ProjectDbService`** (module `ProjectDb`, `ProjectDb.dfy`). The `Projects` table is a
  `map` from id to row inside a class. The LINQ queries (`Where`, `FirstOrDefault`,
  `OrderByDescending`) are functions over the table's rows in id order. Create, rename and
  delete are methods that change the table.
- **`Result<T>`** (module `Results`, `Results.dfy`). This is the immutable success/failure
  value with its two factories.

Two shared modules support them:

- **`Outcomes`** holds C# null as `Option`, a thrown exception as `Outcome.Thrown`, and the
  exceptions the services raise.
- **`Strings`** holds `char.IsWhiteSpace` with the documented .NET list, `IsNullOrEmpty`,
  `IsNullOrWhiteSpace`, ASCII `ToLower`, and the decimal rendering of an `int`. It proves
  that rendering injective by reading it back.

The filesystem (module `FileSystem`) is a `Tree`, a map from paths (sequences of segments)
to directory or file entries. A `Disk` object holds the tree and changes it in place.

- Each `Directory`/`File` call the services make has a specification function on trees:
  `Mkdir`, `WriteFile`, `DeleteFile` and `DeleteTree`. The matching `Disk` method is proved
  to implement it.
- The operating system's refusals are two fixed sets of paths: `refused` paths may not be
  created or written, and `undeletable` paths may not be deleted. The two are independent,
  so a file a call has just written may still resist its removal. Together with an entry of
  the wrong kind (a file where a directory is needed, or a directory where a file is), a
  missing parent or target directory, and paths that end in a separator, these sets are the
  only source of I/O exceptions.
- A recursive delete that meets an undeletable entry removes everything that does not
  contain one, then throws.

`docker` is a parameter `sandbox`. It is a total function from the argument vector and the
files directly inside the bound workspace to either a fault (an exception from `Start`, a stream
read or `WaitForExitAsync`) or an exit code with both captured streams.

Four facts about `CompilerService.cs` shape the model:

- Each call compiles one file, `codeFileName`.
- `codeFileName` is written before the `try`, so a failed write leaves the new workspace
  behind (`WriteFailureLeavesWorkspace`). An empty `codeFileName` makes `Path.Combine`
  return the workspace itself, and the write fails on that directory
  (`EmptyFileNameRejected`).
- An exception from the recursive delete in `finally` propagates and replaces the result of
  the `try` (`WorkspaceRemovedAfterTry`).
- `--network=none` is passed on every call.

`UserFileService.DeleteProjectDirectoriesAsync` throws on an empty user id, so its status 3
(`USERIDNULLOREMPTY`) is never returned.

## Model

| member | source | states |
|---|---|---|
| Strings.ToLower | BlazorServerApp/Services/CompilerService.cs:12 | lowering keeps the length and maps each character by the ASCII lower-case rule |
| Strings.IsWhiteSpace | BlazorServerApp/Services/ProjectDbService.cs:24 | `char.IsWhiteSpace`: the tab-to-carriage-return controls, space, U+0085, U+00A0, U+1680, U+2000-U+200A, U+2028, U+2029, U+202F, U+205F and U+3000 |
| Strings.IsNullOrWhiteSpace | BlazorServerApp/Services/ProjectDbService.cs:53 | `string.IsNullOrWhiteSpace` on a non-null string: every character is white space, so the empty string qualifies |
| Strings.IsNullOrEmpty | BlazorServerApp/Services/UserFileService.cs:15 | `string.IsNullOrEmpty` on a non-null string: the string has no characters |
| Strings.IntToString | BlazorServerApp/Services/UserFileService.cs:54 | the decimal text of an `int`, `-` first when negative; never empty (`ParseIntToString`) |
| Strings.LowerCharPreimage | BlazorServerApp/Services/CompilerService.cs:12 | the characters that lower to `c` are `c` itself and, for a lower-case letter, its upper-case form |
| Strings.ParseIntToString | BlazorServerApp/Services/UserFileService.cs:54 | the decimal rendering of every `int` (sign included) reads back as that `int` |
| Strings.IntToStringInjective | BlazorServerApp/Services/UserFileService.cs:54 | distinct project ids render as distinct `Project_` suffixes |
| FileSystem.Combine | BlazorServerApp/Services/CompilerService.cs:35 | `Path.Combine(dir, name)`: an empty name adds no segment, any other name is one segment directly inside `dir` |
| FileSystem.Mkdir | BlazorServerApp/Services/UserFileService.cs:21 | `Directory.CreateDirectory`: creates the missing directories on the way, outermost first, and stops at a file in the way or a refused directory, keeping what it created; its properties are the `Mkdir` lemmas below |
| FileSystem.WriteFile | BlazorServerApp/Services/CompilerService.cs:36 | `File.WriteAllText` and `File.Create`: fail on a missing parent, a directory, a trailing separator or a refused path, else create or overwrite the one file (`WriteFileSpec`) |
| FileSystem.DeleteFile | BlazorServerApp/Services/UserFileService.cs:77 | `File.Delete`: a missing parent fails, a missing file is no error, a directory or undeletable file fails, else the one entry goes (`DeleteFileSpec`) |
| FileSystem.DeleteTree | BlazorServerApp/Services/CompilerService.cs:102 | `Directory.Delete(p, true)`: a missing directory fails; otherwise everything not pinned by an undeletable entry goes, and it fails when anything remains (`DeleteTreeSpec`) |
| FileSystem.MkdirAddsAncestors | BlazorServerApp/Services/CompilerService.cs:33 | `Directory.CreateDirectory` keeps every entry and adds only directories on the way to the target, none of them refused |
| FileSystem.MkdirSucceeds | BlazorServerApp/Services/UserFileService.cs:21 | creation succeeds exactly when no file is in the way and every missing directory may be created; the directory then exists |
| FileSystem.MkdirWellFormed | BlazorServerApp/Services/UserFileService.cs:29 | creation keeps every entry under an existing directory |
| FileSystem.MkdirExisting | BlazorServerApp/Services/UserFileService.cs:19-22 | creating an existing directory changes nothing and succeeds |
| FileSystem.MkdirIdempotent | BlazorServerApp/Services/UserFileService.cs:21 | creating the same directory again on what a first attempt left changes nothing more and ends the same way, whether that attempt succeeded or stopped half way |
| FileSystem.WriteFileSpec | BlazorServerApp/Services/CompilerService.cs:36 | a write succeeds exactly when the parent is a directory, the target is not one, does not end in a separator and is not refused; it then changes only that file, otherwise nothing |
| FileSystem.DeleteFileSpec | BlazorServerApp/Services/UserFileService.cs:77 | `File.Delete` removes just that file and treats a missing file as success; it fails when the parent directory is missing and on a directory or an undeletable file |
| FileSystem.AncestorExists | BlazorServerApp/Services/CompilerService.cs:33-36 | in a well-formed tree every prefix of a stored path is an existing directory |
| FileSystem.DeleteTreeSpec | BlazorServerApp/Services/CompilerService.cs:102 | a recursive delete succeeds exactly when the directory exists and holds nothing undeletable, and then nothing at or below it remains; in every case nothing outside it changes, undeletable entries stay and the tree stays well formed |
| FileSystem.RemoveDeletableBelow | BlazorServerApp/Services/UserFileService.cs:75-79 | deleting deletable files below a directory changes neither whether it can be removed nor what its removal leaves |
| FileSystem.Disk.constructor | BlazorServerApp/Services/UserFileService.cs:19 | the disk starts from a well-formed tree, a set of paths that may not be created or written, and an independent set of paths that may not be deleted |
| FileSystem.Disk.DirectoryExists | BlazorServerApp/Services/UserFileService.cs:19 | `Directory.Exists`: the root, or a stored directory; false for a file |
| FileSystem.Disk.FileExists | BlazorServerApp/Services/UserFileService.cs:44-46 | `File.Exists`: a stored file whose path does not end in a separator; false for a directory |
| FileSystem.Disk.CreateDirectory | BlazorServerApp/Services/CompilerService.cs:33 | the in-place update is `Mkdir` on the old tree and keeps the disk well formed |
| FileSystem.Disk.WriteAllText | BlazorServerApp/Services/CompilerService.cs:36 | the in-place update is `WriteFile` on the old tree and keeps the disk well formed |
| FileSystem.Disk.Delete | BlazorServerApp/Services/UserFileService.cs:77 | the in-place update is `DeleteFile` on the old tree and keeps the disk well formed |
| FileSystem.Disk.DeleteDirectory | BlazorServerApp/Services/UserFileService.cs:79 | the in-place update is `DeleteTree` on the old tree and keeps the disk well formed |
| FileSystem.Disk.GetFiles | BlazorServerApp/Services/UserFileService.cs:75 | a missing directory throws; otherwise every file directly inside it is listed exactly once and nothing else |
| CompilerService.ResolveLanguage | BlazorServerApp/Services/CompilerService.cs:12-25 | a resolved language's tag is the lowered input; `None` means no tag matches |
| CompilerService.LowerMatches | BlazorServerApp/Services/CompilerService.cs:12 | lowering gives a lower-case target exactly when the input spells it in any letter case |
| CompilerService.ResolveIgnoresCase | BlazorServerApp/Services/CompilerService.cs:12-22 | a language is selected exactly when the input is its tag "c", "c++" or "java" in any letter case |
| CompilerService.ResolveExamples | BlazorServerApp/Services/CompilerService.cs:12-24 | "C", "c" give C, "C++" gives C++, "Java" and "JAVA" give Java, and "python" and "cpp" are rejected |
| CompilerService.UnsupportedLanguage | BlazorServerApp/Services/CompilerService.cs:24 | the `NotSupportedException` with the message `Language '<tag>' is not supported.` (`UnsupportedLanguageRejected`) |
| CompilerService.ImageName | BlazorServerApp/Services/CompilerService.cs:12-22 | the image of each language: `c-compiler:latest`, `cpp-compiler:latest`, `java-compiler:latest` |
| CompilerService.BuildRunCommand | BlazorServerApp/Services/CompilerService.cs:65-79 | the script of each language: compile the submitted file, then run the result under `timeout 5` (`CommandShape`) |
| CompilerService.ContainerName | BlazorServerApp/Services/CompilerService.cs:27 | the container of a session is `compiler_` followed by its id (`SessionsDistinct`) |
| CompilerService.Workspace | BlazorServerApp/Services/CompilerService.cs:32 | the workspace of a session is the directory named by its id inside the temporary root (`SessionsDistinct`) |
| CompilerService.DockerArgs | BlazorServerApp/Services/CompilerService.cs:48-63 | the argument vector in the order of the `ArgumentList.Add` calls (`DecodeDockerArgs`, `ConfigureStartInfo`) |
| CompilerService.DecodeDockerArgs | BlazorServerApp/Services/CompilerService.cs:48-63 | every argument vector reads back as the invocation it was built from, with the five containment flags at positions 2-6 |
| CompilerService.DockerArgsInjective | BlazorServerApp/Services/CompilerService.cs:56-63 | distinct invocations (workspace, container name, image, script) never share an argument vector |
| CompilerService.CommandShape | BlazorServerApp/Services/CompilerService.cs:65-75 | each script is the build step, then `&&`, then the run step under `timeout 5` |
| CompilerService.SessionsDistinct | BlazorServerApp/Services/CompilerService.cs:26-32 | different session ids give different workspaces and container names |
| CompilerService.UnsupportedLanguageRejected | BlazorServerApp/Services/CompilerService.cs:23-24 | an unknown tag throws `NotSupportedException` with the source's message, leaves the filesystem unchanged and starts no container |
| CompilerService.SandboxCall | BlazorServerApp/Services/CompilerService.cs:32-86 | the `docker` call of a compile, made only for a supported language whose workspace and code file could both be created: the session's argument vector and the files then in the workspace |
| CompilerService.CompileSpec | BlazorServerApp/Services/CompilerService.cs:9-104 | the whole compile call on trees: the language check, the directory and the write before the `try`, the `docker` run, and the `finally` delete whose exception wins (properties in the lemmas below) |
| CompilerService.CompileAfterTry | BlazorServerApp/Services/CompilerService.cs:37-103 | once the `try` is entered, the outcome is the `finally` delete's exception if it throws, else the `docker` fault, else the classified exit, and the tree is what the delete leaves |
| CompilerService.ResultReflectsExit | BlazorServerApp/Services/CompilerService.cs:86-98 | a result is returned exactly when `docker` ran and exited and the cleanup is not blocked (nothing undeletable in the workspace before, and neither the new directory nor the code file undeletable); then `Success` iff the exit code is 0, and `Output`/`Errors` are the two streams |
| CompilerService.TryEnteredPinning | BlazorServerApp/Services/CompilerService.cs:33-37 | after the directory and the code file are created, the workspace exists, the code file is not the workspace itself, the tree is well formed, and the workspace holds something undeletable exactly when the cleanup is blocked |
| CompilerService.WorkspaceRemovedAfterTry | BlazorServerApp/Services/CompilerService.cs:100-103 | once the `try` is entered, nothing remains at or below the workspace unless the cleanup is blocked, in which case the call throws the delete's `IOException`, in a fresh session too; outside the workspace nothing changes |
| CompilerService.WriteFailureLeavesWorkspace | BlazorServerApp/Services/CompilerService.cs:33-37 | when the code file cannot be written the call throws for its path and the new workspace directory remains |
| CompilerService.EmptyFileNameRejected | BlazorServerApp/Services/CompilerService.cs:35-36 | an empty code file name throws for the workspace before the `try`, starts no container, and leaves behind a workspace that could be created |
| CompilerService.FilesInSingle | BlazorServerApp/Services/CompilerService.cs:35-36 | a directory with nothing below it shows exactly the one file just written there |
| CompilerService.FreshSessionSeesOneFile | BlazorServerApp/Services/CompilerService.cs:32-63 | in a fresh session the container sees exactly the submitted file under its name and gets the session's argument vector |
| CompilerService.MkdirFootprint | BlazorServerApp/Services/CompilerService.cs:33 | creating the workspace touches only directories on the way to it |
| CompilerService.WriteFootprint | BlazorServerApp/Services/CompilerService.cs:36 | writing the code file touches only the workspace |
| CompilerService.DeleteFootprint | BlazorServerApp/Services/CompilerService.cs:102 | the `finally` delete touches only the workspace |
| CompilerService.CompileFootprint | BlazorServerApp/Services/CompilerService.cs:9-104 | on every path a compile call keeps the tree well formed, keeps every entry outside the workspace, and adds only the workspace's ancestors and entries inside it |
| CompilerService.ProcessStartInfo.constructor | BlazorServerApp/Services/CompilerService.cs:39-46 | a start info for the given program with the given redirect, shell and window flags and an empty argument list |
| CompilerService.ProcessStartInfo.Add | BlazorServerApp/Services/CompilerService.cs:48-63 | `ArgumentList.Add` appends exactly one argument at the end |
| CompilerService.AddCommand | BlazorServerApp/Services/CompilerService.cs:65-79 | the second switch appends the resolved language's build-and-run script |
| CompilerService.ConfigureStartInfo | BlazorServerApp/Services/CompilerService.cs:39-79 | the filled start info runs `docker` with both output streams redirected, no shell and no window, and with exactly `DockerArgs` of the session's invocation |
| CompilerService.CompileCode | BlazorServerApp/Services/CompilerService.cs:9-104 | the compile call's effect on the disk and its outcome are `CompileSpec` of the old tree |
| UserFiles.UserFileService.constructor | BlazorServerApp/Services/UserFileService.cs:8-12 | the storage root is the configured `FileStorage:Basepath`, else `D:/CompilerApp/StoredFiles` |
| UserFiles.UserFileService.GetProjectDirectoryPath | BlazorServerApp/Services/UserFileService.cs:51-56 | a project directory is three segments below the root, starting with the storage root |
| UserFiles.UserFileService.ProjectPathsDistinct | BlazorServerApp/Services/UserFileService.cs:51-56 | two (user, project) pairs share a directory exactly when they are equal |
| UserFiles.UserFileService.SourceFilePath | BlazorServerApp/Services/UserFileService.cs:42 | the target of `CreateFile` lies under the project's `SourceCode` directory, and ends in a separator exactly when the name and the extension are both empty |
| UserFiles.UserFileService.EnsureDir | BlazorServerApp/Services/UserFileService.cs:19-22 | `if (!Directory.Exists(p)) Directory.CreateDirectory(p)` (`EnsureDirSpec`) |
| UserFiles.UserFileService.EnsureSubDirs | BlazorServerApp/Services/UserFileService.cs:24-31 | the subdirectory loop: each name in order, stopping at the first that throws (`EnsureSubDirsSpec`) |
| UserFiles.UserFileService.CreateDefaultSpec | BlazorServerApp/Services/UserFileService.cs:13-33 | the whole default-directory call on trees: the user-id check, the project directory, then the loop (`DefaultDirectoriesCreated`) |
| UserFiles.UserFileService.CreateFileSpec | BlazorServerApp/Services/UserFileService.cs:34-50 | the whole file-creation call on trees: the user-id check, the existence test, then `File.Create` (`CreateFileEffect`) |
| UserFiles.UserFileService.EnsureDirSpec | BlazorServerApp/Services/UserFileService.cs:19-22 | "create if missing" keeps every entry, keeps the tree well formed, succeeds exactly when the directory can be created or exists, and leaves it in place |
| UserFiles.UserFileService.EnsureSubDirsSpec | BlazorServerApp/Services/UserFileService.cs:23-31 | the subdirectory loop keeps every entry and the tree well formed; when it completes, every subdirectory exists, and a failure names one of them |
| UserFiles.UserFileService.EnsureSubDirsExisting | BlazorServerApp/Services/UserFileService.cs:27-30 | when every subdirectory exists the loop changes nothing |
| UserFiles.UserFileService.EnsureSubDirsStep | BlazorServerApp/Services/UserFileService.cs:24-31 | one more turn of the loop after a completed prefix ensures exactly the next subdirectory |
| UserFiles.UserFileService.EnsureSubDirsStops | BlazorServerApp/Services/UserFileService.cs:24-31 | the first failing subdirectory ends the loop with its exception |
| UserFiles.UserFileService.EnsureDirIdempotent | BlazorServerApp/Services/UserFileService.cs:19-22 | ensuring a directory again on what the first attempt left changes nothing more and ends the same way |
| UserFiles.UserFileService.EnsureSubDirsIdempotent | BlazorServerApp/Services/UserFileService.cs:24-31 | running the subdirectory loop again on what it left changes nothing more and stops at the same name or succeeds again |
| UserFiles.UserFileService.CreateDefaultProjectDirectories | BlazorServerApp/Services/UserFileService.cs:13-33 | the method's effect and outcome are `CreateDefaultSpec` of the old tree |
| UserFiles.UserFileService.DefaultDirectoriesCreated | BlazorServerApp/Services/UserFileService.cs:13-33 | nothing is ever removed; an empty user id throws `ArgumentNullException` with no change; an uncreatable project directory throws; on success the project directory and `SourceCode`, `Inputs`, `Outputs`, `Logs` exist |
| UserFiles.UserFileService.DefaultDirectoriesIdempotent | BlazorServerApp/Services/UserFileService.cs:13-33 | running the creation again on what a first call left changes nothing more and ends the same way, success or the same exception |
| UserFiles.UserFileService.CreateSubDirectories | BlazorServerApp/Services/UserFileService.cs:23-31 | the loop's effect and the failing subdirectory it reports are `EnsureSubDirs` of the old tree |
| UserFiles.UserFileService.CreateFile | BlazorServerApp/Services/UserFileService.cs:34-50 | the method's effect and outcome are `CreateFileSpec` of the old tree |
| UserFiles.UserFileService.CreateFileEffect | BlazorServerApp/Services/UserFileService.cs:36-47 | an existing file is never overwritten; otherwise exactly one empty file is added, exactly when its directory exists, the path names a file and it may be written; a failure changes nothing; an empty name and extension throw |
| UserFiles.UserFileService.DeleteFiles | BlazorServerApp/Services/UserFileService.cs:75-78 | deleting the listed files removes only listed files, all deletable and directly inside the directory; on success exactly the listed files are gone, and a failure means the directory held an undeletable file |
| UserFiles.UserFileService.DeleteProjectDirectories | BlazorServerApp/Services/UserFileService.cs:57-93 | empty id throws with no change; 1 iff the directory is missing, with no change; 0 iff it exists and holds nothing undeletable, and then nothing at or below it remains; on 2 only entries inside it were removed, every remaining entry keeps its content and undeletable ones remain |
| ProjectDb.Where | BlazorServerApp/Services/ProjectDbService.cs:55-56 | `Where` keeps each matching row with its multiplicity and nothing else |
| ProjectDb.FirstOrDefault | BlazorServerApp/Services/ProjectDbService.cs:63 | LINQ `FirstOrDefault`: the first row of the query, or null for an empty one (`GetProjectById`) |
| ProjectDb.InsertNewestFirst | BlazorServerApp/Services/ProjectDbService.cs:57 | insertion adds exactly the one row |
| ProjectDb.InsertKeepsNewestFirst | BlazorServerApp/Services/ProjectDbService.cs:57 | insertion keeps a newest-first sequence newest first |
| ProjectDb.OrderByNewest | BlazorServerApp/Services/ProjectDbService.cs:57 | `OrderByDescending(CreationDate)` is a permutation ordered newest first |
| ProjectDb.ProjectDbService.constructor | BlazorServerApp/Services/ProjectDbService.cs:12-20 | the service works on the rows the context already holds, each stored under its own positive id, with the identity column past every id handed out |
| ProjectDb.ProjectDbService.RowsBelowCount | BlazorServerApp/Services/ProjectDbService.cs:55 | enumerating the ids below `k` yields each stored row below `k` once |
| ProjectDb.ProjectDbService.RowsExactlyOnce | BlazorServerApp/Services/ProjectDbService.cs:62-63 | enumerating the table yields every stored row exactly once and nothing else |
| ProjectDb.ProjectDbService.GetProjectById | BlazorServerApp/Services/ProjectDbService.cs:60-67 | returns the stored row with that id, or throws `KeyNotFoundException("Project with ID <id> was not found")` exactly when there is none |
| ProjectDb.ProjectDbService.IsProjectOwnedByUser | BlazorServerApp/Services/ProjectDbService.cs:43-50 | throws exactly for a missing id; otherwise true iff the stored `UserID` equals the given one |
| ProjectDb.ProjectDbService.GetProjectsByUserId | BlazorServerApp/Services/ProjectDbService.cs:51-59 | throws `ArgumentNullException` exactly for a null/white-space id; otherwise every row of that user exactly once, newest first |
| ProjectDb.ProjectDbService.CreateProjectInDatabase | BlazorServerApp/Services/ProjectDbService.cs:22-42 | white-space `userId` or `projectName` throws with no change; otherwise exactly one row with the given fields and a fresh id is added and that id returned |
| ProjectDb.ProjectDbService.UpdateProjectNameInDatabase | BlazorServerApp/Services/ProjectDbService.cs:68-78 | white-space id throws with no change; only the `Name` of the row owned by the user changes; with no such row nothing changes |
| ProjectDb.ProjectDbService.DeleteProjectFromDatabase | BlazorServerApp/Services/ProjectDbService.cs:79-95 | white-space id throws with no change; 0 and exactly that row removed when the user owns it, otherwise 1 with no change |
| Results.Success | BlazorServerApp/Models/Result.cs:16-19 | a success carries the data and no error message |
| Results.Failure | BlazorServerApp/Models/Result.cs:20-23 | a failure carries the message and no data |
| Results.FactoriesMakeExactlyConsistent | BlazorServerApp/Models/Result.cs:9-14 | the values with no error message on success and no data on failure are exactly the factory-made ones |
| Results.FactoriesDistinct | BlazorServerApp/Models/Result.cs:16-23 | no success equals a failure, and each factory is injective |

## Left out

- Process streaming and concurrency: the sequential read of standard output and then standard error, the possible pipe deadlock, and concurrent compile calls. `docker` is an oracle over the argument vector and the workspace files.
- What the container writes into the bound workspace (`main.out`, class files): the oracle does not change the tree, so the `finally` delete meets only what the workspace held before, the workspace directory and the code file.
- Refusals that change over time: whether a path may be created, written or deleted is fixed for the disk's lifetime.
- `Guid.NewGuid()` and `Path.GetTempPath()`: the session id and the temporary root are parameters. `SessionsDistinct` covers only distinct ids.
- CompilerService.Workspace: the workspace is always one segment below the temporary root; an empty session id, which `Path.Combine` would collapse into the root itself, is not modelled because a `Guid` string is never empty.
- Path syntax: paths are sequences of segments. `Path.Combine` with a rooted argument, separators inside `codeFileName`, `fileName` or `directory`, and `..` are not modelled; each is a single segment. The backslash that `CreateFile` appends is read as a Windows separator. `PathText` writes the workspace with `/`. `basePath` is one segment, although its default `D:/CompilerApp/StoredFiles` contains separators.
- Case-insensitive names: segments compare exactly, so `Main.c` and `main.c` are distinct entries, whereas the default Windows file systems treat them as one file.
- Nested content of a workspace that existed before the call: `docker` is given only the files directly inside the workspace, not those in its subdirectories.
- `async`/`await` and `Task.Run`: every call runs to completion in order.
- Entity Framework: `SaveChangesAsync` failures, the schema's length limits and `Required` checks, cascades, SQL collation (strings compare exactly), and concurrent contexts.
- ProjectDb.OrderByNewest: rows with equal `CreationDate` come in an order the database picks; the contract deliberately does not fix it.
- ProjectDb.ProjectDbService.CreateProjectInDatabase: `DateTime.UtcNow` is the parameter `now`; the identity column's next value is `nextId`.
- Strings.ToLower: only ASCII letters are lowered; culture-specific lowering of other characters is not modelled.
- C# null strings: every string argument is non-null; `Option` models only null `Description`, `Data` and `ErrorMessage`.
- Console logging in `CreateFile` and `DeleteProjectDirectoriesAsync`, and the `FileStream` that `File.Create` returns and never closes.
- Exception messages other than those the source spells out: an I/O exception is identified by the path it concerns; a sandbox fault by the stage it happened in. The exception types the file calls throw (`IOException`, `UnauthorizedAccessException`, `DirectoryNotFoundException`) are all `IOException`.
- UserFiles.UserFileService.DeleteProjectDirectories: the caught exception's message is not modelled, only the status code.
- BlazorServerApp/Services/ProjectManagementService.cs, ProjectService.cs, Program.cs, the Razor pages, the migrations and ApplicationDbContext.cs are not part of this model.
