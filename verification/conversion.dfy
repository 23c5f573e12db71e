/** The convert action: the checks first, then, only when they pass, the argument vector
    for the converter. Running the converter is not part of this model. */
module Conversion {
  import opened Wrappers
  import opened Validation
  import opened Command

  /** What the form holds when Convert is pressed: the four path entries and the texture
      entry of each material row. */
  datatype Form = Form(mesh: string, skeleton: string, animations: string, outputDir: string,
                       textures: seq<string>)

  /** The vector to run, or the check that stopped the attempt; and the filesystem after. */
  datatype Attempt = Attempt(command: Result<seq<string>, ValidationError>, after: FileSystem)

  function Convert(form: Form, materials: seq<string>, fs: FileSystem): (r: Attempt)
    ensures var v := Validate(form.mesh, form.skeleton, form.outputDir, fs);
            && r.after == v.after
            && (r.command.Success? <==> v.verdict.Valid?)
            && (r.command.Failure? ==> r.command.error == v.verdict.error)
    ensures r.command.Success? ==>
              ParseArguments(r.command.value)
              == Some(Request(form.mesh, form.skeleton, form.animations, form.outputDir, materials, form.textures))
  {
    var v := Validate(form.mesh, form.skeleton, form.outputDir, fs);
    match v.verdict
    case Invalid(e) => Attempt(Failure(e), v.after)
    case Valid =>
      var req := Request(form.mesh, form.skeleton, form.animations, form.outputDir, materials, form.textures);
      ArgumentsRoundTrip(req);
      Attempt(Success(Arguments(req)), v.after)
  }

  /** Converting again with the same form, once the first attempt has made the output
      directory, builds the identical vector and changes nothing further. */
  lemma ConvertIdempotent(form: Form, materials: seq<string>, fs: FileSystem)
    requires Convert(form, materials, fs).command.Success?
    ensures var first := Convert(form, materials, fs);
            Convert(form, materials, first.after) == first
  {
    ValidateIdempotent(form.mesh, form.skeleton, form.outputDir, fs);
  }
}
