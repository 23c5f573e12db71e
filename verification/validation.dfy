/** The checks run before a conversion, in their fixed order: mesh file, skeleton file,
    output directory named, output directory present (created if need be), converter
    executable present. The filesystem is an oracle: which paths exist, whether creating
    the output directory would succeed, whether the converter may be executed. */
module Validation {
  import Paths

  /** The executable the checks look for in the working directory. */
  const ToolExecutable: string := "lol2gltf.exe"

  datatype FileSystem = FileSystem(existing: set<string>, mkdirSucceeds: bool, toolExecutable: bool)

  /** One error per check, each shown to the user as its own message. */
  datatype ValidationError =
    | InvalidMesh           // no .skn path, or it does not exist
    | InvalidSkeleton       // no .skl path, or it does not exist
    | MissingOutputDir      // no output directory given
    | OutputDirUnavailable  // creating the output directory raised OSError
    | ToolMissing           // the converter is missing or not executable

  datatype Verdict = Valid | Invalid(error: ValidationError)

  /** The verdict of the checks and the filesystem they leave behind. */
  datatype Validation = Validation(verdict: Verdict, after: FileSystem)

  predicate PresentFile(path: string, fs: FileSystem) {
    path != "" && path in fs.existing
  }

  predicate ToolReady(fs: FileSystem) {
    ToolExecutable in fs.existing && fs.toolExecutable
  }

  /** A path names a directory `os.makedirs(p)` makes along the way when it is a prefix of
      p ending just before a separator, and not itself ending in one. */
  predicate AncestorOf(q: string, p: string) {
    0 < |q| < |p| && q == p[..|q|] && p[|q|] == Paths.Separator && q[|q| - 1] != Paths.Separator
  }

  /** The filesystem once `os.makedirs(glbDir)` has made the directory and every missing
      directory above it. */
  function WithDirectory(glbDir: string, fs: FileSystem): (r: FileSystem)
    ensures glbDir in r.existing && fs.existing <= r.existing
    ensures forall q :: AncestorOf(q, glbDir) ==> q in r.existing
    ensures forall q :: q in r.existing && q !in fs.existing ==> q == glbDir || AncestorOf(q, glbDir)
    ensures r.mkdirSucceeds == fs.mkdirSucceeds && r.toolExecutable == fs.toolExecutable
  {
    var parents := set i | 0 < i < |glbDir| && glbDir[i] == Paths.Separator && glbDir[i - 1] != Paths.Separator :: glbDir[..i];
    assert forall q :: AncestorOf(q, glbDir) ==> q in parents by {
      forall q | AncestorOf(q, glbDir) ensures q in parents {
        var i := |q|;
        assert glbDir[i - 1] == q[i - 1];
      }
    }
    fs.(existing := fs.existing + parents + {glbDir})
  }

  /** `validate_paths(skn_path, skl_path, glb_dir)`. */
  function Validate(skn: string, skl: string, glbDir: string, fs: FileSystem): Validation {
    if !PresentFile(skn, fs) then Validation(Invalid(InvalidMesh), fs)
    else if !PresentFile(skl, fs) then Validation(Invalid(InvalidSkeleton), fs)
    else if glbDir == "" then Validation(Invalid(MissingOutputDir), fs)
    else if glbDir !in fs.existing && !fs.mkdirSucceeds then Validation(Invalid(OutputDirUnavailable), fs)
    else
      var after := if glbDir in fs.existing then fs else WithDirectory(glbDir, fs);
      if !ToolReady(after) then Validation(Invalid(ToolMissing), after)
      else Validation(Valid, after)
  }

  /** A check: whether it passes, and the error it reports when it does not. */
  datatype Check = Check(passes: bool, error: ValidationError)

  /** The error of the first check that does not pass, or Valid when all pass. */
  function FirstFailure(checks: seq<Check>): (r: Verdict)
    ensures r.Valid? <==> forall k :: 0 <= k < |checks| ==> checks[k].passes
    ensures r.Invalid? ==>
              exists k :: 0 <= k < |checks| && !checks[k].passes && checks[k].error == r.error
                          && forall j :: 0 <= j < k ==> checks[j].passes
  {
    if |checks| == 0 then Valid
    else if !checks[0].passes then Invalid(checks[0].error)
    else
      FirstFailure(checks[1..])
  }

  /** The checks in the order they run; the converter is looked for after the output
      directory has been made. */
  function OrderedChecks(skn: string, skl: string, glbDir: string, fs: FileSystem): seq<Check> {
    var after := if glbDir in fs.existing then fs else WithDirectory(glbDir, fs);
    [ Check(PresentFile(skn, fs), InvalidMesh),
      Check(PresentFile(skl, fs), InvalidSkeleton),
      Check(glbDir != "", MissingOutputDir),
      Check(glbDir in fs.existing || fs.mkdirSucceeds, OutputDirUnavailable),
      Check(ToolReady(after), ToolMissing) ]
  }

  /** The verdict is that of the first failing check in the fixed order; the output
      directory and its missing parents are made only when the first three checks pass,
      the directory is missing and making it succeeds, and nothing else changes. */
  lemma ValidateInOrder(skn: string, skl: string, glbDir: string, fs: FileSystem)
    ensures Validate(skn, skl, glbDir, fs).verdict == FirstFailure(OrderedChecks(skn, skl, glbDir, fs))
    ensures var after := Validate(skn, skl, glbDir, fs).after;
            after == if PresentFile(skn, fs) && PresentFile(skl, fs) && glbDir != ""
                        && glbDir !in fs.existing && fs.mkdirSucceeds
                     then WithDirectory(glbDir, fs) else fs
  {
    var c0 := OrderedChecks(skn, skl, glbDir, fs);
    var c1 := c0[1..];
    var c2 := c1[1..];
    var c3 := c2[1..];
    var c4 := c3[1..];
    assert FirstFailure(c4[1..]) == Valid;
    assert FirstFailure(c4) == if c4[0].passes then Valid else Invalid(ToolMissing);
    assert FirstFailure(c3) == if c3[0].passes then FirstFailure(c4) else Invalid(OutputDirUnavailable);
    assert FirstFailure(c2) == if c2[0].passes then FirstFailure(c3) else Invalid(MissingOutputDir);
    assert FirstFailure(c1) == if c1[0].passes then FirstFailure(c2) else Invalid(InvalidSkeleton);
    assert FirstFailure(c0) == if c0[0].passes then FirstFailure(c1) else Invalid(InvalidMesh);
  }

  /** An empty mesh path is rejected whatever the filesystem holds, and nothing is made. */
  lemma EmptyMeshRejectedFirst(skl: string, glbDir: string, fs: FileSystem)
    ensures Validate("", skl, glbDir, fs) == Validation(Invalid(InvalidMesh), fs)
  {
  }

  /** Once the checks pass, running them again passes and changes nothing. */
  lemma ValidateIdempotent(skn: string, skl: string, glbDir: string, fs: FileSystem)
    requires Validate(skn, skl, glbDir, fs).verdict.Valid?
    ensures var after := Validate(skn, skl, glbDir, fs).after;
            Validate(skn, skl, glbDir, after) == Validation(Valid, after)
  {
  }

  /** `os.makedirs` makes the missing parents too, so an output directory inside a missing
      `lol2gltf.exe` makes that name exist before the converter is looked for: the verdict
      is then up to whether it may be executed. */
  lemma ToolNameCreatedAsParent(fs: FileSystem)
    requires "m" in fs.existing && "s" in fs.existing && "lol2gltf.exe/x" !in fs.existing
    requires fs.mkdirSucceeds
    ensures var v := Validate("m", "s", "lol2gltf.exe/x", fs);
            ToolExecutable in v.after.existing && (v.verdict.Valid? <==> fs.toolExecutable)
  {
    var p := "lol2gltf.exe/x";
    assert AncestorOf(ToolExecutable, p) by {
      assert p[..|ToolExecutable|] == ToolExecutable;
    }
  }
}
