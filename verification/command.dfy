/** The argument vector handed to the external converter, and the output path inside it. */
module Command {
  import opened Wrappers
  import Paths

  const ToolName: string := "lol2gltf"
  const Subcommand: string := "skn2gltf"
  const GlbExtension: string := ".glb"

  /** `glb_filename`: the mesh file's name with its extension replaced by ".glb". */
  function OutputName(meshPath: string): string {
    Paths.Stem(Paths.Basename(meshPath)) + GlbExtension
  }

  /** `glb_path`: the output directory joined with the output file name. */
  function OutputPath(glbDir: string, meshPath: string): string {
    Paths.Join(glbDir, OutputName(meshPath))
  }

  /** The output file name is a single relative path component. */
  lemma OutputNameComponent(meshPath: string)
    ensures Paths.Separator !in OutputName(meshPath)
    ensures OutputName(meshPath)[0] != Paths.Separator
  {
    var base := Paths.Basename(meshPath);
    var split := Paths.SplitExtension(base);
    assert split.0 + split.1 == base;
    assert split.0 == base[..|split.0|];
    assert Paths.Separator !in split.0 && Paths.Separator !in GlbExtension;
    assert OutputName(meshPath) == split.0 + GlbExtension;
  }

  /** The output file is named after the mesh file's stem and lies directly in the output
      directory. */
  lemma OutputPathShape(glbDir: string, meshPath: string)
    ensures Paths.Basename(OutputPath(glbDir, meshPath)) == OutputName(meshPath)
    ensures glbDir != "" && glbDir[|glbDir| - 1] != Paths.Separator ==>
              OutputPath(glbDir, meshPath) == glbDir + [Paths.Separator] + OutputName(meshPath)
    ensures glbDir != "" && glbDir[|glbDir| - 1] == Paths.Separator ==>
              OutputPath(glbDir, meshPath) == glbDir + OutputName(meshPath)
  {
    OutputNameComponent(meshPath);
    Paths.BasenameOfJoin(glbDir, OutputName(meshPath));
  }

  /** A conversion request: the paths and the (material, texture) pairs to send. An empty
      animation directory means none. */
  datatype ConversionRequest = ConversionRequest(
    mesh: string,
    skeleton: string,
    animations: string,
    output: string,
    textures: seq<(string, string)>)

  /** The materials paired, position by position, with the texture entries (the shorter
      list decides how many pairs), keeping only the pairs whose texture is not empty. */
  function Selected(materials: seq<string>, textures: seq<string>): (r: seq<(string, string)>)
    ensures |r| <= |materials| && |r| <= |textures|
    ensures forall j :: 0 <= j < |r| ==> r[j].1 != ""
    ensures forall i :: 0 <= i < |materials| && i < |textures| && textures[i] != "" ==>
              (materials[i], textures[i]) in r
    ensures forall j :: 0 <= j < |r| ==>
              exists i :: 0 <= i < |materials| && i < |textures| && r[j] == (materials[i], textures[i])
  {
    if |materials| == 0 || |textures| == 0 then []
    else
      var rest := Selected(materials[1..], textures[1..]);
      if textures[0] != "" then [(materials[0], textures[0])] + rest else rest
  }

  /** The request the convert action builds from the entry fields. */
  function Request(skn: string, skl: string, anmDir: string, glbDir: string,
                   materials: seq<string>, textures: seq<string>): ConversionRequest
  {
    ConversionRequest(skn, skl, anmDir, OutputPath(glbDir, skn), Selected(materials, textures))
  }

  function Firsts(pairs: seq<(string, string)>): (r: seq<string>)
    ensures |r| == |pairs| && forall i :: 0 <= i < |pairs| ==> r[i] == pairs[i].0
  {
    seq(|pairs|, i requires 0 <= i < |pairs| => pairs[i].0)
  }

  function Seconds(pairs: seq<(string, string)>): (r: seq<string>)
    ensures |r| == |pairs| && forall i :: 0 <= i < |pairs| ==> r[i] == pairs[i].1
  {
    seq(|pairs|, i requires 0 <= i < |pairs| => pairs[i].1)
  }

  function Zip(names: seq<string>, paths: seq<string>): (r: seq<(string, string)>)
    requires |names| == |paths|
    ensures |r| == |names| && forall i :: 0 <= i < |names| ==> r[i] == (names[i], paths[i])
  {
    seq(|names|, i requires 0 <= i < |names| => (names[i], paths[i]))
  }
  /** Unzipping a zip gives back both lists. */
  lemma UnzipZip(names: seq<string>, paths: seq<string>)
    requires |names| == |paths|
    ensures Firsts(Zip(names, paths)) == names && Seconds(Zip(names, paths)) == paths
  {
  }


  /** The fixed part of every vector: tool, subcommand, mesh, skeleton, output. */
  function BaseArguments(req: ConversionRequest): seq<string> {
    [ToolName, Subcommand, "-m", req.mesh, "-s", req.skeleton, "-g", req.output]
  }

  function AnimationArguments(req: ConversionRequest): seq<string> {
    if req.animations != "" then ["-a", req.animations] else []
  }

  function TextureArguments(pairs: seq<(string, string)>): seq<string> {
    if |pairs| > 0 then ["--materials"] + Firsts(pairs) + ["--textures"] + Seconds(pairs) else []
  }

  /** Reads the texture flags back into their pairs: "--materials", n names, "--textures",
      n paths, with n at least one; or nothing at all. */
  function ParseTextureArguments(rest: seq<string>): Option<seq<(string, string)>> {
    if |rest| == 0 then Some([])
    else
      var n := (|rest| - 2) / 2;
      if |rest| >= 4 && |rest| % 2 == 0 && rest[0] == "--materials" && rest[n + 1] == "--textures"
      then Some(Zip(rest[1..n + 1], rest[n + 2..]))
      else None
  }

  lemma TextureArgumentsRoundTrip(pairs: seq<(string, string)>)
    ensures ParseTextureArguments(TextureArguments(pairs)) == Some(pairs)
  {
    var n := |pairs|;
    var rest := TextureArguments(pairs);
    if n > 0 {
      assert rest[0] == "--materials" && rest[n + 1] == "--textures";
      assert rest[1..n + 1] == Firsts(pairs);
      assert rest[n + 2..] == Seconds(pairs);
      assert Zip(Firsts(pairs), Seconds(pairs)) == pairs;
    }
  }

  lemma TextureArgumentsCanonical(rest: seq<string>)
    requires ParseTextureArguments(rest).Some?
    ensures TextureArguments(ParseTextureArguments(rest).value) == rest
  {
    if |rest| > 0 {
      var n := (|rest| - 2) / 2;
      var names, paths := rest[1..n + 1], rest[n + 2..];
      assert |names| == |paths| == n;
      UnzipZip(names, paths);
      assert ParseTextureArguments(rest).value == Zip(names, paths);
      assert rest == ["--materials"] + names + ["--textures"] + paths;
    }
  }


  /** The argument vector: the fixed part, then "-a" and the animation directory when
      there is one, then the material names and, in the same order, their textures. */
  function Arguments(req: ConversionRequest): (r: seq<string>)
    ensures |r| >= 8 && r[..8] == BaseArguments(req)
  {
    BaseArguments(req) + AnimationArguments(req) + TextureArguments(req.textures)
  }

  /** Reads a vector back into the request it was built from; None for anything
      Arguments never produces. */
  function ParseArguments(argv: seq<string>): Option<ConversionRequest> {
    if || |argv| < 8 || argv[0] != ToolName || argv[1] != Subcommand
       || argv[2] != "-m" || argv[4] != "-s" || argv[6] != "-g"
    then None
    else
      var hasAnimations := |argv| >= 10 && argv[8] == "-a" && argv[9] != "";
      var animations := if hasAnimations then argv[9] else "";
      var rest := if hasAnimations then argv[10..] else argv[8..];
      match ParseTextureArguments(rest)
      case None => None
      case Some(pairs) => Some(ConversionRequest(argv[3], argv[5], animations, argv[7], pairs))
  }

  /** Parsing a vector Arguments built gives back the request it was built from. */
  lemma ArgumentsRoundTrip(req: ConversionRequest)
    ensures ParseArguments(Arguments(req)) == Some(req)
  {
    var argv := Arguments(req);
    if req.animations != "" {
      assert argv[8..10] == ["-a", req.animations];
      assert argv[10..] == TextureArguments(req.textures);
    } else {
      assert argv[8..] == TextureArguments(req.textures);
    }
    TextureArgumentsRoundTrip(req.textures);
  }

  /** Every vector the parser accepts is exactly the vector of the request it returns, so
      the parser accepts nothing but vectors Arguments produces. */
  lemma ParseArgumentsCanonical(argv: seq<string>)
    requires ParseArguments(argv).Some?
    ensures Arguments(ParseArguments(argv).value) == argv
  {
    var req := ParseArguments(argv).value;
    var hasAnimations := |argv| >= 10 && argv[8] == "-a" && argv[9] != "";
    var head := if hasAnimations then 10 else 8;
    var rest := argv[head..];
    assert ParseTextureArguments(rest) == Some(req.textures);
    TextureArgumentsCanonical(rest);
    assert argv[..8] == BaseArguments(req);
    assert argv[8..head] == AnimationArguments(req);
    assert argv == argv[..8] + argv[8..head] + rest;
  }

  /** With no animation directory and no selected texture the vector is the eight fixed
      tokens alone. */
  lemma PlainArguments(req: ConversionRequest)
    requires req.animations == "" && req.textures == []
    ensures Arguments(req) == [ToolName, Subcommand, "-m", req.mesh, "-s", req.skeleton, "-g", req.output]
  {
  }

  /** "-a" and the animation directory follow the fixed tokens exactly when a directory
      was given. */
  lemma AnimationFlag(req: ConversionRequest)
    ensures var argv := Arguments(req);
            req.animations != "" <==> |argv| >= 10 && argv[8..10] == ["-a", req.animations]
  {
    var argv := Arguments(req);
    if req.animations == "" && |argv| >= 10 {
      assert argv[8..] == TextureArguments(req.textures);
      assert argv[8] == "--materials";
    }
  }

  /** The texture flags appear exactly when some texture entry among the paired ones is
      not empty. */
  lemma TextureFlags(materials: seq<string>, textures: seq<string>)
    ensures TextureArguments(Selected(materials, textures)) != [] <==>
              exists i :: 0 <= i < |materials| && i < |textures| && textures[i] != ""
  {
    var pairs := Selected(materials, textures);
    if exists i :: 0 <= i < |materials| && i < |textures| && textures[i] != "" {
      var i :| 0 <= i < |materials| && i < |textures| && textures[i] != "";
      assert (materials[i], textures[i]) in pairs;
    }
    if |pairs| > 0 {
      var i :| 0 <= i < |materials| && i < |textures| && pairs[0] == (materials[i], textures[i]);
      assert textures[i] != "";
    }
  }

  /** The optional parts of the vector built from the entry fields: "-a" and the animation
      directory exactly when a directory was given, the texture flags exactly when some
      paired texture entry is not empty. */
  lemma OptionalArguments(skn: string, skl: string, anmDir: string, glbDir: string,
                          materials: seq<string>, textures: seq<string>)
    ensures var argv := Arguments(Request(skn, skl, anmDir, glbDir, materials, textures));
            && (anmDir != "" <==> |argv| >= 10 && argv[8..10] == ["-a", anmDir])
            && (TextureArguments(Request(skn, skl, anmDir, glbDir, materials, textures).textures) != [] <==>
                  exists i :: 0 <= i < |materials| && i < |textures| && textures[i] != "")
  {
    AnimationFlag(Request(skn, skl, anmDir, glbDir, materials, textures));
    TextureFlags(materials, textures);
  }

  /** Selection works entry by entry: selecting from two blocks of equal-length rows
      selects from each block and keeps the blocks in order. With the single-row case
      this pins down the order of the pairs and that nothing else moves. */
  lemma {:induction false} SelectedAppend(m1: seq<string>, t1: seq<string>, m2: seq<string>, t2: seq<string>)
    requires |m1| == |t1|
    ensures Selected(m1 + m2, t1 + t2) == Selected(m1, t1) + Selected(m2, t2)
  {
    if |m1| == 0 {
      assert m1 + m2 == m2 && t1 + t2 == t2;
    } else {
      assert (m1 + m2)[1..] == m1[1..] + m2;
      assert (t1 + t2)[1..] == t1[1..] + t2;
      SelectedAppend(m1[1..], t1[1..], m2, t2);
    }
  }

  /** A single row is kept exactly when its texture is not empty. */
  lemma SelectedSingle(material: string, texture: string)
    ensures Selected([material], [texture]) == if texture != "" then [(material, texture)] else []
  {
  }

  /** Rows past the end of the shorter list are ignored. */
  lemma {:induction false} SelectedTruncates(materials: seq<string>, textures: seq<string>)
    ensures var k := if |materials| <= |textures| then |materials| else |textures|;
            Selected(materials, textures) == Selected(materials[..k], textures[..k])
  {
    if |materials| > 0 && |textures| > 0 {
      SelectedTruncates(materials[1..], textures[1..]);
      var k := if |materials| <= |textures| then |materials| else |textures|;
      assert materials[..k][1..] == materials[1..][..k - 1];
      assert textures[..k][1..] == textures[1..][..k - 1];
    }
  }

  /** When every texture entry is filled in, every material is sent, in order. */
  lemma {:induction false} SelectedAll(materials: seq<string>, textures: seq<string>)
    requires |materials| == |textures|
    requires forall i :: 0 <= i < |textures| ==> textures[i] != ""
    ensures Selected(materials, textures) == Zip(materials, textures)
  {
    if |materials| > 0 {
      SelectedAll(materials[1..], textures[1..]);
    }
  }

  /** The output path of "body.skn" in directory "out". */
  lemma ExampleOutputPath()
    ensures OutputPath("out", "body.skn") == "out/body.glb"
  {
    var mesh := "body.skn";
    assert forall k :: 0 <= k < |mesh| ==> mesh[k] != Paths.Separator;
    assert Paths.Basename(mesh) == mesh;
    assert Paths.LastIndexOf(mesh, '.') == Paths.LastIndexOf("body.", '.') == Some(4);
    assert !Paths.AllDots(mesh[..4]) by {
      assert mesh[0] != '.';
    }
    assert Paths.Stem(mesh) == "body";
  }

  /** Two materials, the second without a texture: only the first is paired. */
  lemma SecondMaterialUnpaired(first: string, second: string, texture: string)
    requires texture != ""
    ensures Selected([first, second], [texture, ""]) == [(first, texture)]
  {
    var materials, textures := [first, second], [texture, ""];
    assert materials[1..] == [second] && textures[1..] == [""];
    assert Selected([second], [""]) == [];
  }

  /** A request with no animation directory and one pair: the fixed tokens, then that
      material and that texture behind their flags. */
  lemma SinglePairArguments(req: ConversionRequest, material: string, texture: string)
    requires req.animations == "" && req.textures == [(material, texture)]
    ensures Arguments(req) == [ToolName, Subcommand, "-m", req.mesh, "-s", req.skeleton, "-g", req.output,
                               "--materials", material, "--textures", texture]
  {
    assert Firsts(req.textures) == [material] && Seconds(req.textures) == [texture];
    assert AnimationArguments(req) == [];
  }

  /** Two materials, the second without a texture: only the first is sent, and no "-a"
      appears without an animation directory. */
  lemma SecondMaterialOmitted(skn: string, skl: string, glbDir: string, first: string, second: string, texture: string)
    requires texture != ""
    ensures Arguments(Request(skn, skl, "", glbDir, [first, second], [texture, ""]))
            == [ToolName, Subcommand, "-m", skn, "-s", skl, "-g", OutputPath(glbDir, skn),
                "--materials", first, "--textures", texture]
  {
    SecondMaterialUnpaired(first, second, texture);
    var req := Request(skn, skl, "", glbDir, [first, second], [texture, ""]);
    assert req == ConversionRequest(skn, skl, "", OutputPath(glbDir, skn), [(first, texture)]);
    SinglePairArguments(req, first, texture);
  }
}
