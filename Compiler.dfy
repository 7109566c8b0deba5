/** `CompilerService.CompileCodeAsync`: resolve the language tag to a compiler image, lay the
    submitted source out in a per-session workspace, run one resource-limited `docker`
    container over it, classify the exit code and remove the workspace again.

    `docker` itself is an oracle: a total function from the argument vector and the files
    directly inside the bound workspace to what the process run ended with. The session id and
    the temporary root are parameters. */
module CompilerService {
  import opened Outcomes
  import opened Strings
  import opened FileSystem

  // The argument constants of the class.
  const RunArg := "run"
  const RemoveFlag := "--rm"
  const CpuLimitArg := "--cpus=0.5"
  const MemoryLimitArg := "--memory=256m"
  const PidLimit := "--pids-limit=64"
  const SecurityArg := "--security-opt=no-new-privileges"
  const NetworkArg := "--network=none"
  const VolumeFlag := "-v"
  const WorkdirFlag := "--workdir"
  const WorkdirArg := "/compiler"
  const NameFlag := "--name"
  const ShellDirArg := "/bin/sh"
  const CommandFlag := "-c"

  /** The name of the binary the C and C++ builds produce. */
  const OutputFileName := "main.out"

  datatype Language = C | Cpp | Java

  /** The lower-case tag that selects each language. */
  function Tag(l: Language): string {
    match l
    case C => "c"
    case Cpp => "c++"
    case Java => "java"
  }

  /** The first `switch (language.ToLower())`: a supported tag in any letter case, or `None`
      for the `default` branch. */
  function ResolveLanguage(language: string): (r: Option<Language>)
    ensures r.Some? ==> ToLower(language) == Tag(r.value)
    ensures r.None? ==> forall l: Language :: ToLower(language) != Tag(l)
  {
    var tag := ToLower(language);
    if tag == "c" then Some(C)
    else if tag == "c++" then Some(Cpp)
    else if tag == "java" then Some(Java)
    else None
  }

  /** The container image of each language. */
  function ImageName(l: Language): string {
    match l
    case C => "c-compiler:latest"
    case Cpp => "cpp-compiler:latest"
    case Java => "java-compiler:latest"
  }

  /** The script `/bin/sh -c` runs: the second `switch (language.ToLower())`. */
  function BuildRunCommand(l: Language, codeFileName: string): string {
    match l
    case C => "gcc " + codeFileName + " -o " + OutputFileName + " && timeout 5 ./" + OutputFileName
    case Cpp => "g++ " + codeFileName + " -o " + OutputFileName + " && timeout 5 ./" + OutputFileName
    case Java => "javac " + codeFileName + " && timeout 5 Main"
  }

  /** The build step alone: the compiler applied to the submitted file. */
  function BuildStep(l: Language, codeFileName: string): string {
    match l
    case C => "gcc " + codeFileName + " -o " + OutputFileName
    case Cpp => "g++ " + codeFileName + " -o " + OutputFileName
    case Java => "javac " + codeFileName
  }

  /** The run step alone: what is started once the build succeeded. */
  function RunStep(l: Language): string {
    match l
    case C => "./" + OutputFileName
    case Cpp => "./" + OutputFileName
    case Java => "Main"
  }

  function ContainerName(sessionId: string): string {
    "compiler_" + sessionId
  }

  /** `Path.Combine(Path.GetTempPath(), sessionId)`. */
  function Workspace(tempRoot: Path, sessionId: string): Path {
    tempRoot + [sessionId]
  }

  /** How a path is written on the `docker` command line. */
  function PathText(p: Path): string
    decreases |p|
  {
    if p == [] then "" else PathText(Parent(p)) + "/" + p[|p| - 1]
  }

  /** The parts of the `docker` invocation that vary from call to call. */
  datatype Invocation = Invocation(hostDir: string, containerName: string, image: string, command: string)

  /** The `docker` argument vector: the list starts empty and each argument is appended in
      the order of the `ArgumentList.Add` calls. */
  function DockerArgs(inv: Invocation): seq<string> {
    [] + [RunArg] + [RemoveFlag] + [CpuLimitArg] + [MemoryLimitArg] + [PidLimit] + [SecurityArg]
    + [NetworkArg] + [VolumeFlag] + [inv.hostDir + ":" + WorkdirArg] + [WorkdirFlag] + [WorkdirArg]
    + [NameFlag] + [inv.containerName] + [inv.image] + [ShellDirArg] + [CommandFlag] + [inv.command]
  }

  /** The resource ceilings and isolation flags every invocation must carry. */
  const ContainmentFlags := [CpuLimitArg, MemoryLimitArg, PidLimit, SecurityArg, NetworkArg]

  /** Reads an argument vector back: it is a confined `docker run` exactly when it has the
      fixed flags in their places, and then the varying parts are recovered. */
  function DecodeInvocation(args: seq<string>): Option<Invocation> {
    var mountSuffix := ":" + WorkdirArg;
    if |args| == 17 && args[..2] == [RunArg, RemoveFlag] && args[2..7] == ContainmentFlags
       && args[7] == VolumeFlag && |args[8]| >= |mountSuffix|
       && args[8][|args[8]| - |mountSuffix|..] == mountSuffix
       && args[9..12] == [WorkdirFlag, WorkdirArg, NameFlag] && args[14..16] == [ShellDirArg, CommandFlag]
    then Some(Invocation(args[8][..|args[8]| - |mountSuffix|], args[12], args[13], args[16]))
    else None
  }

  /** `CompilationResult`. */
  datatype CompilationResult = CompilationResult(Success: bool, Output: string, Errors: string)

  /** What the `docker` process ended with: an exception at one of `Start`, reading standard
      output, reading standard error or `WaitForExitAsync`, or an exit code with the text it
      wrote to each stream. */
  datatype SandboxOutcome = Faulted(stage: string) | Exited(exitCode: int, stdout: string, stderr: string)

  /** The `docker` oracle: argument vector and the files directly inside the bound workspace
      to outcome. */
  type Sandbox = (seq<string>, map<string, string>) -> SandboxOutcome

  /** The exception `CompileCodeAsync` throws for an unsupported tag. */
  function UnsupportedLanguage(language: string): Exception {
    NotSupportedException("Language '" + language + "' is not supported.")
  }

  /** The argument vector of a session's `docker run`. */
  function SessionArgs(l: Language, tempRoot: Path, sessionId: string, codeFileName: string): seq<string> {
    DockerArgs(Invocation(PathText(Workspace(tempRoot, sessionId)), ContainerName(sessionId),
                          ImageName(l), BuildRunCommand(l, codeFileName)))
  }

  /** The call `CompileCodeAsync` makes to `docker`, if it gets that far: for a supported
      language whose workspace directory and code file could both be created. */
  function SandboxCall(t: Tree, refused: set<Path>, tempRoot: Path, sessionId: string,
                       code: string, codeFileName: string, language: string): Option<(seq<string>, map<string, string>)>
  {
    match ResolveLanguage(language)
    case None => None
    case Some(l) =>
      var ws := Workspace(tempRoot, sessionId);
      var (t1, made) := Mkdir(t, refused, ws);
      var (t2, written) := WriteFile(t1, refused, Combine(ws, codeFileName), code);
      if made && written then Some((SessionArgs(l, tempRoot, sessionId, codeFileName), FilesIn(t2, ws)))
      else None
  }

  /** What `CompileCodeAsync` does to the filesystem and what it returns or throws. Creating
      the directory and writing the file happen before the `try`, so their failures skip the
      cleanup; the `finally` runs after the process whatever it did, and an exception from
      the recursive delete replaces whatever the `try` produced. */
  function CompileSpec(t: Tree, refused: set<Path>, undeletable: set<Path>, tempRoot: Path, sessionId: string,
                       code: string, codeFileName: string, language: string, sandbox: Sandbox): (Tree, Outcome<CompilationResult>)
  {
    match ResolveLanguage(language)
    case None => (t, Thrown(UnsupportedLanguage(language)))
    case Some(l) =>
      var ws := Workspace(tempRoot, sessionId);
      var (t1, made) := Mkdir(t, refused, ws);
      if !made then (t1, Thrown(IOException(ws)))
      else
        var file := Combine(ws, codeFileName);
        var (t2, written) := WriteFile(t1, refused, file, code);
        if !written then (t2, Thrown(IOException(file)))
        else
          var outcome := sandbox(SessionArgs(l, tempRoot, sessionId, codeFileName), FilesIn(t2, ws));
          var (t3, removed) := DeleteTree(t2, undeletable, ws);
          if !removed then (t3, Thrown(IOException(ws)))
          else match outcome
            case Faulted(stage) => (t3, Thrown(SandboxException(stage)))
            case Exited(exitCode, stdout, stderr) => (t3, Normal(CompilationResult(exitCode == 0, stdout, stderr)))
  }

  /** `ProcessStartInfo`: the program name, the flags of its object initializer, and the
      argument list that `ArgumentList.Add` extends in place. */
  class ProcessStartInfo {
    const fileName: string
    const redirectStandardOutput: bool
    const redirectStandardError: bool
    const useShellExecute: bool
    const createNoWindow: bool
    var argumentList: seq<string>

    constructor (fileName: string, redirectStandardOutput: bool, redirectStandardError: bool,
                 useShellExecute: bool, createNoWindow: bool)
      ensures this.fileName == fileName && argumentList == []
      ensures this.redirectStandardOutput == redirectStandardOutput
      ensures this.redirectStandardError == redirectStandardError
      ensures this.useShellExecute == useShellExecute && this.createNoWindow == createNoWindow
    {
      this.fileName := fileName;
      this.redirectStandardOutput := redirectStandardOutput;
      this.redirectStandardError := redirectStandardError;
      this.useShellExecute := useShellExecute;
      this.createNoWindow := createNoWindow;
      argumentList := [];
    }

    /** `ArgumentList.Add(arg)`. */
    method Add(arg: string)
      modifies this
      ensures argumentList == old(argumentList) + [arg]
    {
      argumentList := argumentList + [arg];
    }
  }


  /** The second `switch (language.ToLower())`: adds the build-and-run script. */
  method AddCommand(startInfo: ProcessStartInfo, language: string, codeFileName: string)
    requires ResolveLanguage(language).Some?
    modifies startInfo
    ensures startInfo.argumentList == old(startInfo.argumentList) + [BuildRunCommand(ResolveLanguage(language).value, codeFileName)]
  {
    var tag := ToLower(language);
    if tag == "c" {
      startInfo.Add("gcc " + codeFileName + " -o " + OutputFileName + " && timeout 5 ./" + OutputFileName);
    } else if tag == "c++" {
      startInfo.Add("g++ " + codeFileName + " -o " + OutputFileName + " && timeout 5 ./" + OutputFileName);
    } else if tag == "java" {
      startInfo.Add("javac " + codeFileName + " && timeout 5 Main");
    } else {
      // the `default` branch: the first switch has already rejected every other tag
      assert false;
    }
  }

  /** The body of the `try` up to `process.Start()`: a `ProcessStartInfo` for `docker` filled
      by successive `ArgumentList.Add` calls, the last one chosen by the second switch. */
  method ConfigureStartInfo(tempDir: Path, containerName: string, imageName: string,
                            language: string, codeFileName: string) returns (startInfo: ProcessStartInfo)
    requires ResolveLanguage(language).Some?
    ensures fresh(startInfo) && startInfo.fileName == "docker"
    ensures startInfo.redirectStandardOutput && startInfo.redirectStandardError
    ensures !startInfo.useShellExecute && startInfo.createNoWindow
    ensures startInfo.argumentList == DockerArgs(Invocation(PathText(tempDir), containerName, imageName,
                                                            BuildRunCommand(ResolveLanguage(language).value, codeFileName)))
  {
    startInfo := new ProcessStartInfo("docker", redirectStandardOutput := true, redirectStandardError := true,
                                      useShellExecute := false, createNoWindow := true);
    startInfo.Add(RunArg);
    startInfo.Add(RemoveFlag);
    startInfo.Add(CpuLimitArg);
    startInfo.Add(MemoryLimitArg);
    startInfo.Add(PidLimit);
    startInfo.Add(SecurityArg);
    startInfo.Add(NetworkArg);
    startInfo.Add(VolumeFlag);
    startInfo.Add(PathText(tempDir) + ":" + WorkdirArg);
    startInfo.Add(WorkdirFlag);
    startInfo.Add(WorkdirArg);
    startInfo.Add(NameFlag);
    startInfo.Add(containerName);
    startInfo.Add(imageName);
    startInfo.Add(ShellDirArg);
    startInfo.Add(CommandFlag);
    AddCommand(startInfo, language, codeFileName);
  }

  /** `CompileCodeAsync(code, codeFileName, language)` for the session id `sessionId`, with
      `tempRoot` as `Path.GetTempPath()` and `sandbox` as `docker`. */
  method CompileCode(fs: Disk, tempRoot: Path, sessionId: string, code: string, codeFileName: string,
                     language: string, sandbox: Sandbox) returns (r: Outcome<CompilationResult>)
    requires fs.Valid()
    modifies fs
    ensures fs.Valid()
    ensures (fs.entries, r) == CompileSpec(old(fs.entries), fs.refused, fs.undeletable, tempRoot, sessionId,
                                           code, codeFileName, language, sandbox)
  {
    var lang := ResolveLanguage(language);
    if lang.None? {
      return Thrown(UnsupportedLanguage(language));
    }
    var imageName := ImageName(lang.value);
    var containerName := ContainerName(sessionId);
    var tempDir := Workspace(tempRoot, sessionId);
    var made := fs.CreateDirectory(tempDir);
    if !made {
      return Thrown(IOException(tempDir));
    }
    var codeFilePath := Combine(tempDir, codeFileName);
    var written := fs.WriteAllText(codeFilePath, code);
    if !written {
      return Thrown(IOException(codeFilePath));
    }

    // try
    var startInfo := ConfigureStartInfo(tempDir, containerName, imageName, language, codeFileName);
    var outcome := sandbox(startInfo.argumentList, FilesIn(fs.entries, tempDir));

    // finally
    var removed := fs.DeleteDirectory(tempDir);
    if !removed {
      return Thrown(IOException(tempDir));
    }
    match outcome
    case Faulted(stage) =>
      r := Thrown(SandboxException(stage));
    case Exited(exitCode, stdout, stderr) =>
      r := Normal(CompilationResult(exitCode == 0, stdout, stderr));
  }

  // ---------------------------------------------------------------------------------------
  // Language resolution

  /** `d` equals `c` once lowered: `c` itself, or the upper-case form of the letter `c`. */
  predicate SameIgnoringCase(d: char, c: char) {
    d == c || ('a' <= c <= 'z' && d as int == c as int - 32)
  }

  /** Lowering `s` gives the lower-case `target` exactly when `s` spells `target` in any
      mixture of letter cases. */
  lemma LowerMatches(s: string, target: string)
    requires forall i :: 0 <= i < |target| ==> !('A' <= target[i] <= 'Z')
    ensures ToLower(s) == target <==>
      |s| == |target| && forall i :: 0 <= i < |s| ==> SameIgnoringCase(s[i], target[i])
  {
    if |s| == |target| {
      forall i | 0 <= i < |s| ensures LowerChar(s[i]) == target[i] <==> SameIgnoringCase(s[i], target[i]) {
        LowerCharPreimage(target[i], s[i]);
      }
      if forall i :: 0 <= i < |s| ==> SameIgnoringCase(s[i], target[i]) {
        assert forall i :: 0 <= i < |s| ==> ToLower(s)[i] == target[i];
      }
    }
  }

  /** A tag selects a language exactly when it spells that language's tag in any letter
      case; every other tag is rejected. */
  lemma ResolveIgnoresCase(language: string, l: Language)
    ensures ResolveLanguage(language) == Some(l) <==>
      |language| == |Tag(l)| && forall i :: 0 <= i < |language| ==> SameIgnoringCase(language[i], Tag(l)[i])
  {
    LowerMatches(language, Tag(l));
  }

  /** Each accepted tag in letter cases a user may type, and two tags that are rejected. */
  lemma ResolveExamples()
    ensures ResolveLanguage("C") == Some(C) && ResolveLanguage("c") == Some(C)
    ensures ResolveLanguage("C++") == Some(Cpp)
    ensures ResolveLanguage("Java") == Some(Java) && ResolveLanguage("JAVA") == Some(Java)
    ensures ResolveLanguage("python") == None && ResolveLanguage("cpp") == None
  {
    ResolveIgnoresCase("C", C);
    ResolveIgnoresCase("C++", Cpp);
    ResolveIgnoresCase("Java", Java);
    ResolveIgnoresCase("JAVA", Java);
    assert ToLower("python")[0] == 'p';
    assert ToLower("cpp")[1] == 'p';
  }

  // ---------------------------------------------------------------------------------------
  // The docker invocation

  /** Every argument vector the launcher builds reads back as the invocation it was built
      from; the fixed flags, among them every containment flag, sit in their places. */
  lemma DecodeDockerArgs(inv: Invocation)
    ensures DecodeInvocation(DockerArgs(inv)) == Some(inv)
    ensures DockerArgs(inv)[2..7] == ContainmentFlags
  {
    var args := DockerArgs(inv);
    assert args == [RunArg, RemoveFlag, CpuLimitArg, MemoryLimitArg, PidLimit, SecurityArg, NetworkArg,
      VolumeFlag, inv.hostDir + ":" + WorkdirArg, WorkdirFlag, WorkdirArg, NameFlag,
      inv.containerName, inv.image, ShellDirArg, CommandFlag, inv.command];
    var m := args[8];
    assert m[..|m| - |":" + WorkdirArg|] == inv.hostDir;
  }

  /** Distinct invocations never share an argument vector. */
  lemma DockerArgsInjective(a: Invocation, b: Invocation)
    ensures DockerArgs(a) == DockerArgs(b) ==> a == b
  {
    DecodeDockerArgs(a);
    DecodeDockerArgs(b);
  }

  /** The script is the build step and the run step joined by `&&`, with the run step
      under a five-second `timeout`. */
  lemma CommandShape(l: Language, codeFileName: string)
    ensures BuildRunCommand(l, codeFileName) == BuildStep(l, codeFileName) + " && timeout 5 " + RunStep(l)
  {
  }

  /** Two sessions with different ids never share a workspace or a container name. */
  lemma SessionsDistinct(tempRoot: Path, s1: string, s2: string)
    requires s1 != s2
    ensures Workspace(tempRoot, s1) != Workspace(tempRoot, s2)
    ensures ContainerName(s1) != ContainerName(s2)
  {
    PrefixCancel("compiler_", s1, s2);
    assert Workspace(tempRoot, s1)[|tempRoot|] == s1;
  }

  // ---------------------------------------------------------------------------------------
  // The compile call

  /** An unknown tag is rejected before anything else: the filesystem is unchanged and no
      container is started. */
  lemma UnsupportedLanguageRejected(t: Tree, refused: set<Path>, undeletable: set<Path>, tempRoot: Path,
                                    sessionId: string, code: string, codeFileName: string, language: string,
                                    sandbox: Sandbox)
    requires ResolveLanguage(language).None?
    ensures CompileSpec(t, refused, undeletable, tempRoot, sessionId, code, codeFileName, language, sandbox)
         == (t, Thrown(NotSupportedException("Language '" + language + "' is not supported.")))
    ensures SandboxCall(t, refused, tempRoot, sessionId, code, codeFileName, language).None?
  {
  }

  /** The `finally` delete cannot remove the workspace `ws`: something undeletable already
      lay in it, or the directory or the code file the call created there is undeletable. */
  predicate CleanupBlocked(t: Tree, undeletable: set<Path>, ws: Path, file: Path) {
    Pinned(t, undeletable, ws) || ws in undeletable || file in undeletable
  }

  /** Once the `try` is entered, the call's effect is the `finally` delete of the tree the
      code file was written into, and its outcome is the delete's exception or else the
      classified `docker` outcome. */
  lemma CompileAfterTry(t: Tree, refused: set<Path>, undeletable: set<Path>, tempRoot: Path, sessionId: string,
                        code: string, codeFileName: string, language: string, sandbox: Sandbox)
    requires SandboxCall(t, refused, tempRoot, sessionId, code, codeFileName, language).Some?
    ensures var ws := Workspace(tempRoot, sessionId);
      var call := SandboxCall(t, refused, tempRoot, sessionId, code, codeFileName, language).value;
      var t2 := WriteFile(Mkdir(t, refused, ws).0, refused, Combine(ws, codeFileName), code).0;
      var (t3, removed) := DeleteTree(t2, undeletable, ws);
      CompileSpec(t, refused, undeletable, tempRoot, sessionId, code, codeFileName, language, sandbox)
      == (t3, if !removed then Thrown(IOException(ws))
              else match sandbox(call.0, call.1)
                case Faulted(stage) => Thrown(SandboxException(stage))
                case Exited(exitCode, stdout, stderr) => Normal(CompilationResult(exitCode == 0, stdout, stderr)))
  {
    var ws := Workspace(tempRoot, sessionId);
    var l := ResolveLanguage(language).value;
    var t1 := Mkdir(t, refused, ws).0;
    var t2 := WriteFile(t1, refused, Combine(ws, codeFileName), code).0;
    var outcome := sandbox(SessionArgs(l, tempRoot, sessionId, codeFileName), FilesIn(t2, ws));
    var (t3, removed) := DeleteTree(t2, undeletable, ws);
    assert CompileSpec(t, refused, undeletable, tempRoot, sessionId, code, codeFileName, language, sandbox)
      == if !removed then (t3, Thrown(IOException(ws)))
         else match outcome
           case Faulted(stage) => (t3, Thrown(SandboxException(stage)))
           case Exited(exitCode, stdout, stderr) => (t3, Normal(CompilationResult(exitCode == 0, stdout, stderr)));
  }

  /** Once the `try` is entered the workspace holds, besides what `t` already held there,
      the workspace directory and the code file; the removal in `finally` therefore fails
      exactly when the cleanup is blocked. */
  lemma TryEnteredPinning(t: Tree, refused: set<Path>, undeletable: set<Path>, tempRoot: Path, sessionId: string,
                          code: string, codeFileName: string, language: string)
    requires WellFormed(t) && ResolveLanguage(language).Some?
    ensures var ws := Workspace(tempRoot, sessionId);
      var file := Combine(ws, codeFileName);
      var (t1, made) := Mkdir(t, refused, ws);
      var (t2, written) := WriteFile(t1, refused, file, code);
      made && written ==>
        && WellFormed(t2) && DirExists(t2, ws) && file != ws
        && (Pinned(t2, undeletable, ws) <==> CleanupBlocked(t, undeletable, ws, file))
        && SameOutside(t1, t2, ws)
  {
    var ws := Workspace(tempRoot, sessionId);
    var file := Combine(ws, codeFileName);
    MkdirAddsAncestors(t, refused, ws);
    MkdirSucceeds(t, refused, ws);
    MkdirWellFormed(t, refused, ws);
    var (t1, made) := Mkdir(t, refused, ws);
    WriteFileSpec(t1, refused, file, code);
    var (t2, written) := WriteFile(t1, refused, file, code);
    if made && written {
      assert ws in t2 && file in t2 && Under(file, ws) && Under(ws, ws);
      if Pinned(t2, undeletable, ws) {
        var r :| r in t2 && r in undeletable && Under(r, ws);
        if r != file && r !in t {
          assert r == ws[..|r|];
          assert r == ws;
        }
      }
      if Pinned(t, undeletable, ws) {
        var r :| r in t && r in undeletable && Under(r, ws);
        assert r in t2;
      }
    }
  }

  /** The compile call returns a value exactly when `docker` was called and exited and the
      workspace could be removed; the verdict is then `Success` iff the exit code is 0, and
      `Output` and `Errors` are the two captured streams. */
  lemma ResultReflectsExit(t: Tree, refused: set<Path>, undeletable: set<Path>, tempRoot: Path, sessionId: string,
                           code: string, codeFileName: string, language: string, sandbox: Sandbox)
    requires WellFormed(t)
    ensures var (t3, r) := CompileSpec(t, refused, undeletable, tempRoot, sessionId, code, codeFileName, language, sandbox);
      var call := SandboxCall(t, refused, tempRoot, sessionId, code, codeFileName, language);
      var ws := Workspace(tempRoot, sessionId);
      r.Normal? <==>
        (call.Some? && sandbox(call.value.0, call.value.1).Exited?
         && !CleanupBlocked(t, undeletable, ws, Combine(ws, codeFileName)))
    ensures var (t3, r) := CompileSpec(t, refused, undeletable, tempRoot, sessionId, code, codeFileName, language, sandbox);
      var call := SandboxCall(t, refused, tempRoot, sessionId, code, codeFileName, language);
      r.Normal? ==>
        var out := sandbox(call.value.0, call.value.1);
        && (r.value.Success <==> out.exitCode == 0)
        && r.value.Output == out.stdout && r.value.Errors == out.stderr
  {
    if SandboxCall(t, refused, tempRoot, sessionId, code, codeFileName, language).Some? {
      TryEnteredPinning(t, refused, undeletable, tempRoot, sessionId, code, codeFileName, language);
      CompileAfterTry(t, refused, undeletable, tempRoot, sessionId, code, codeFileName, language, sandbox);
      var ws := Workspace(tempRoot, sessionId);
      var t2 := WriteFile(Mkdir(t, refused, ws).0, refused, Combine(ws, codeFileName), code).0;
      DeleteTreeSpec(t2, undeletable, ws);
    }
  }

  /** Every exit from the `try` runs the recursive delete: unless the cleanup is blocked,
      nothing at or below the workspace remains; otherwise the delete's exception is what
      the call throws, even in a fresh session whose code file resists removal. In both
      cases the rest of the filesystem is as the directory creation left it. */
  lemma WorkspaceRemovedAfterTry(t: Tree, refused: set<Path>, undeletable: set<Path>, tempRoot: Path,
                                 sessionId: string, code: string, codeFileName: string, language: string,
                                 sandbox: Sandbox)
    requires WellFormed(t)
    requires SandboxCall(t, refused, tempRoot, sessionId, code, codeFileName, language).Some?
    ensures var ws := Workspace(tempRoot, sessionId);
      var blocked := CleanupBlocked(t, undeletable, ws, Combine(ws, codeFileName));
      var (t3, r) := CompileSpec(t, refused, undeletable, tempRoot, sessionId, code, codeFileName, language, sandbox);
      && (!blocked ==> forall q :: q in t3 ==> !Under(q, ws))
      && (blocked ==> r == Thrown(IOException(ws)))
      && SameOutside(Mkdir(t, refused, ws).0, t3, ws)
  {
    var ws := Workspace(tempRoot, sessionId);
    TryEnteredPinning(t, refused, undeletable, tempRoot, sessionId, code, codeFileName, language);
    var (t1, made) := Mkdir(t, refused, ws);
    var (t2, written) := WriteFile(t1, refused, Combine(ws, codeFileName), code);
    DeleteTreeSpec(t2, undeletable, ws);
    CompileAfterTry(t, refused, undeletable, tempRoot, sessionId, code, codeFileName, language, sandbox);
  }

  /** A failure to write the code file happens before the `try`: the call throws and the
      freshly created workspace directory stays behind. */
  lemma WriteFailureLeavesWorkspace(t: Tree, refused: set<Path>, undeletable: set<Path>, tempRoot: Path,
                                    sessionId: string, code: string, codeFileName: string, language: string,
                                    sandbox: Sandbox)
    requires ResolveLanguage(language).Some?
    requires var ws := Workspace(tempRoot, sessionId);
      Creatable(t, refused, ws) && !WriteFile(Mkdir(t, refused, ws).0, refused, Combine(ws, codeFileName), code).1
    ensures var ws := Workspace(tempRoot, sessionId);
      var (t3, r) := CompileSpec(t, refused, undeletable, tempRoot, sessionId, code, codeFileName, language, sandbox);
      r == Thrown(IOException(Combine(ws, codeFileName))) && DirExists(t3, ws)
  {
    MkdirSucceeds(t, refused, Workspace(tempRoot, sessionId));
  }

  /** An empty code file name makes the file path the workspace directory itself, which no
      write can replace: the call throws for the workspace before the `try`, no container is
      started, and a workspace that could be created stays behind. */
  lemma EmptyFileNameRejected(t: Tree, refused: set<Path>, undeletable: set<Path>, tempRoot: Path,
                              sessionId: string, code: string, language: string, sandbox: Sandbox)
    requires ResolveLanguage(language).Some?
    ensures SandboxCall(t, refused, tempRoot, sessionId, code, "", language).None?
    ensures var ws := Workspace(tempRoot, sessionId);
      var (t3, r) := CompileSpec(t, refused, undeletable, tempRoot, sessionId, code, "", language, sandbox);
      r == Thrown(IOException(ws)) && (Creatable(t, refused, ws) ==> DirExists(t3, ws))
  {
    MkdirSucceeds(t, refused, Workspace(tempRoot, sessionId));
  }

  /** A directory with nothing below it, after one file is written into it, shows that one file. */
  lemma FilesInSingle(t: Tree, ws: Path, name: string, code: string)
    requires forall q :: q in t && Under(q, ws) ==> |q| <= |ws|
    ensures FilesIn(t[ws + [name] := File(code)], ws) == map[name := code]
  {
    var file := ws + [name];
    var t2 := t[file := File(code)];
    forall q | q in t2 && |q| == |ws| + 1 && Under(q, ws) ensures q == file {
    }
    assert file[|ws|] == name;
    assert NamesIn(t2, ws) == {name};
  }

  /** In a fresh session (its workspace did not exist) the container sees exactly one file,
      the submitted code under its own name, and is started with the session's argument
      vector. */
  lemma FreshSessionSeesOneFile(t: Tree, refused: set<Path>, tempRoot: Path, sessionId: string,
                                code: string, codeFileName: string, language: string)
    requires WellFormed(t) && Workspace(tempRoot, sessionId) !in t
    requires SandboxCall(t, refused, tempRoot, sessionId, code, codeFileName, language).Some?
    ensures var call := SandboxCall(t, refused, tempRoot, sessionId, code, codeFileName, language).value;
      && call.1 == map[codeFileName := code]
      && call.0 == SessionArgs(ResolveLanguage(language).value, tempRoot, sessionId, codeFileName)
  {
    var ws := Workspace(tempRoot, sessionId);
    MkdirAddsAncestors(t, refused, ws);
    MkdirSucceeds(t, refused, ws);
    var (t1, made) := Mkdir(t, refused, ws);
    assert codeFileName != "";
    forall q | q in t1 && Under(q, ws) ensures |q| <= |ws| {
      if q in t && |q| > |ws| {
        AncestorExists(t, ws, q);
      }
    }
    FilesInSingle(t1, ws, codeFileName, code);
  }

  /** `u` is well formed, keeps every entry of `t` outside `ws`, and adds nothing but
      directories on the way to `ws` and entries inside it. */
  predicate Footprint(t: Tree, u: Tree, ws: Path) {
    && WellFormed(u)
    && (forall q :: q in t && !Under(q, ws) ==> q in u && u[q] == t[q])
    && (forall q :: q in u && q !in t ==> Under(q, ws) || Under(ws, q))
  }

  lemma MkdirFootprint(t: Tree, refused: set<Path>, ws: Path)
    requires WellFormed(t)
    ensures Footprint(t, Mkdir(t, refused, ws).0, ws)
  {
    MkdirAddsAncestors(t, refused, ws);
    MkdirWellFormed(t, refused, ws);
    var t1 := Mkdir(t, refused, ws).0;
    forall q | q in t1 && q !in t ensures Under(ws, q) {
      assert q == ws[..|q|];
    }
  }

  lemma WriteFootprint(t: Tree, u: Tree, refused: set<Path>, ws: Path, name: string, code: string)
    requires Footprint(t, u, ws)
    ensures Footprint(t, WriteFile(u, refused, Combine(ws, name), code).0, ws)
  {
    WriteFileSpec(u, refused, Combine(ws, name), code);
    assert Under(Combine(ws, name), ws);
  }

  lemma DeleteFootprint(t: Tree, u: Tree, undeletable: set<Path>, ws: Path)
    requires Footprint(t, u, ws)
    ensures Footprint(t, DeleteTree(u, undeletable, ws).0, ws)
  {
    DeleteTreeSpec(u, undeletable, ws);
  }

  /** Whatever happens, a compile call keeps the filesystem well formed, leaves every entry
      outside the workspace as it was, and adds nothing but directories on the way to the
      workspace and entries inside it. */
  lemma CompileFootprint(t: Tree, refused: set<Path>, undeletable: set<Path>, tempRoot: Path, sessionId: string,
                         code: string, codeFileName: string, language: string, sandbox: Sandbox)
    requires WellFormed(t)
    ensures Footprint(t, CompileSpec(t, refused, undeletable, tempRoot, sessionId, code, codeFileName, language, sandbox).0,
                      Workspace(tempRoot, sessionId))
  {
    var ws := Workspace(tempRoot, sessionId);
    if ResolveLanguage(language).Some? {
      MkdirFootprint(t, refused, ws);
      var (t1, made) := Mkdir(t, refused, ws);
      WriteFootprint(t, t1, refused, ws, codeFileName, code);
      var (t2, written) := WriteFile(t1, refused, Combine(ws, codeFileName), code);
      DeleteFootprint(t, t2, undeletable, ws);
      var t3 := CompileSpec(t, refused, undeletable, tempRoot, sessionId, code, codeFileName, language, sandbox).0;
      if !made {
        assert t3 == t1;
      } else if !written {
        assert t3 == t2;
      } else {
        var l := ResolveLanguage(language).value;
        var outcome := sandbox(SessionArgs(l, tempRoot, sessionId, codeFileName), FilesIn(t2, ws));
        var (t4, removed) := DeleteTree(t2, undeletable, ws);
        assert CompileSpec(t, refused, undeletable, tempRoot, sessionId, code, codeFileName, language, sandbox)
          == if !removed then (t4, Thrown(IOException(ws)))
             else match outcome
               case Faulted(stage) => (t4, Thrown(SandboxException(stage)))
               case Exited(exitCode, stdout, stderr) => (t4, Normal(CompilationResult(exitCode == 0, stdout, stderr)));
      }
    }
  }
}
