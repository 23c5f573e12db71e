# lol2gltf GUI core in Dafny

A model of the logic inside the lol2gltf GUI (a front end that turns a League of Legends
Simple Skin mesh, its skeleton and optional animations and textures into a glTF binary by
running the external `lol2gltf` converter). It covers three pieces of
`lol2gltfGUI/lol2gltf.py`:

- **The skin-file header reader** (`get_materials`). It works on the bytes of a `.skn` file,
  in the `SkinReader` module. It checks the little-endian signature `0x00112233` and the
  version: major 0, 2 or 4, and minor 1. A version 0 file yields one material, the file name
  without its extension. A version 2 or 4 file yields one name per declared mesh: each is a
  64-byte field, decoded strictly as UTF-8 and stripped of trailing NULs, and is followed by
  16 skipped bytes. The reader follows Python's file semantics:
  - `read(n)` returns a shorter slice, possibly an empty one, at or past the end of the file;
  - `seek` may move past the end of the file;
  - `struct.unpack` of a short read fails.

  `SkinWriter` lays the format out again for the round trip. `Utf8` is the strict decoder
  and its encoder. `Bytes` holds the little-endian integers.
- **The checks before a conversion** (`validate_paths`), in `Validation`. They run in a fixed
  order over a filesystem oracle: the set of existing paths, whether `os.makedirs` would
  succeed, and whether `lol2gltf.exe` may be executed. The model returns the first failing
  check and the filesystem as it is afterwards.
- **The output path and argument vector** (`convert_to_glb`). These are in `Command`, which
  also holds the POSIX `basename`/`splitext`/`join` rules from `Paths`. `Conversion` combines
  the checks and the vector builder. `ParseArguments` is an inverse of the vector builder,
  proved in both directions.

Behaviours of the code a reader might not expect:

- A mesh table cut short by the end of the file is not an error in itself. `read(64)` does
  not raise, so a partial field is decoded as it is, and every later mesh is named by the
  empty string (`SkinReader.PartialNameTable`, `SkinReader.TruncatedTable`,
  `SkinReader.ReadNamesPastEnd`). The read still
  fails when the partial field ends inside a UTF-8 sequence, because strict decoding rejects
  it (`SkinReader.CutCharacterRejected`). Apart from that, only a short read of the
  signature, a version or the mesh count fails.
- A name field that is not valid UTF-8 aborts the whole read. The other names are not kept.
- A name may be empty, for example when its field is all NUL bytes.
- Every failure reaches the caller as an empty list, the same value a file with zero meshes
  gives (`SkinReader.GetMaterials`). `SkinReader.Parse` keeps the error kinds apart.
- `os.makedirs` creates every missing parent of the output directory. When one of them is
  named `lol2gltf.exe`, that name exists by the time the converter is looked for
  (`Validation.ToolNameCreatedAsParent`).
- Textures are paired with materials by position with `zip`, not through a map keyed by
  material name. Duplicate material names stay separate pairs, and the shorter of the two
  lists decides how many pairs there are.
- The vector names the tool `lol2gltf`, while the check looks for the file `lol2gltf.exe`.
  The fixed part of the vector has eight tokens.

## Model

| member | source | states |
|---|---|---|
| Bytes.FromLittleEndian | lol2gltfGUI/lol2gltf.py:202 | the value unpacked from n bytes, least significant first, is below 256^n |
| Bytes.FromToLittleEndian | lol2gltfGUI/lol2gltf.py:206-207 | unpacking the little-endian encoding of any value that fits the width gives the value back |
| Bytes.ToFromLittleEndian | lol2gltfGUI/lol2gltf.py:217 | every byte string is the encoding of the value unpacked from it, so unpacking loses nothing |
| Utf8.EncodeCharDecodes | lol2gltfGUI/lol2gltf.py:219 | the UTF-8 encoding of each character is one well-formed sequence that strict decoding maps back to that character |
| Utf8.DecodeEncodeAppend | lol2gltfGUI/lol2gltf.py:219 | strict decoding of an encoded text followed by decodable bytes yields the text followed by their decoding |
| Utf8.DecodeEncode | lol2gltfGUI/lol2gltf.py:219 | strict decoding inverts encoding for every string |
| Utf8.EncodeDecode | lol2gltfGUI/lol2gltf.py:219 | every byte string that strict decoding accepts is the encoding of its decoded text, so no overlong or other non-shortest form gets through |
| Utf8.SequenceEncodes | lol2gltfGUI/lol2gltf.py:219 | each well-formed one- to four-byte sequence is exactly the encoding of the scalar it decodes to |
| Utf8.CutSequenceRejected | lol2gltfGUI/lol2gltf.py:219 | the first two bytes of a three-byte sequence, with the third missing, do not decode |
| Utf8.DecodeZeros | lol2gltfGUI/lol2gltf.py:219 | n zero bytes of padding decode to n NUL characters |
| Paths.Basename | lol2gltfGUI/lol2gltf.py:148 | the base name is the longest separator-free suffix of the path |
| Paths.SplitExtension | lol2gltfGUI/lol2gltf.py:148 | root and extension concatenate to the name; the extension is empty exactly when no dot follows a non-dot character, and otherwise starts at the last dot |
| Paths.Join | lol2gltfGUI/lol2gltf.py:149 | the joined path ends with the joined name |
| Paths.BasenameOfJoin | lol2gltfGUI/lol2gltf.py:148-149 | joining a separator-free name onto any directory leaves that name as the final component |
| SkinReader.Read | lol2gltfGUI/lol2gltf.py:219 | `read(n)` returns the n bytes at the cursor when they exist, and otherwise whatever is left, possibly nothing |
| SkinReader.ReadUnsigned | lol2gltfGUI/lol2gltf.py:202-207 | unpacking succeeds exactly when the full width lies inside the file; it then gives the little-endian value there, and otherwise a short-read error at that offset |
| SkinReader.StripNul | lol2gltfGUI/lol2gltf.py:219 | `rstrip('\x00')` keeps the longest prefix followed only by NULs, and that prefix does not end in NUL |
| SkinReader.StripNulIdempotent | lol2gltfGUI/lol2gltf.py:219 | stripping twice equals stripping once |
| SkinReader.ReadNames | lol2gltfGUI/lol2gltf.py:217-221 | a successful table read has exactly count names and none ends in NUL; a failed one names a mesh within the table as undecodable |
| SkinReader.Parse | lol2gltfGUI/lol2gltf.py:198-223 | success implies a full header with the right signature and a supported version; a version 0 file gives one name; a version 2/4 file gives exactly the declared count of names, none ending in NUL |
| SkinReader.GetMaterials | lol2gltfGUI/lol2gltf.py:198-226 | the caller receives the empty list exactly when reading fails or a version 2/4 file declares zero meshes, so it cannot tell the two apart; a non-empty list is always the complete result of a successful read |
| SkinReader.RejectedFilesGiveNoMaterials | lol2gltfGUI/lol2gltf.py:202-210 | a file shorter than the header, one with a wrong signature and one with an unsupported version each give the caller the empty list |
| SkinReader.SignatureGate | lol2gltfGUI/lol2gltf.py:202-204 | a wrong signature in bytes 0-3 is rejected with the value found, whatever follows |
| SkinReader.ShortHeaderRejected | lol2gltfGUI/lol2gltf.py:202-207 | a file shorter than the 8-byte header is rejected; with a correct signature the cause is a short read of a version field |
| SkinReader.VersionGate | lol2gltfGUI/lol2gltf.py:206-210 | a full header whose version is not 0.1, 2.1 or 4.1 is rejected with that version |
| SkinReader.LegacyFile | lol2gltfGUI/lol2gltf.py:213-215 | a version 0.1 file yields exactly the file name without extension, and no byte after offset 8 changes that |
| SkinReader.NameFieldOffsets | lol2gltfGUI/lol2gltf.py:218-221 | when the fields are present, name field i is the 64 bytes at offset 12 + 80*i |
| SkinReader.NameFieldShift | lol2gltfGUI/lol2gltf.py:219-221 | after one 64-byte read and a 16-byte skip, field i of the rest of the table is field i + 1 of the whole table |
| SkinReader.ReadNamesStep | lol2gltfGUI/lol2gltf.py:218-221 | with the first field present, the table reads successfully iff that field decodes and the remaining entries, 80 bytes on, read successfully |
| SkinReader.NameTableDecodes | lol2gltfGUI/lol2gltf.py:218-221 | however short the file, the table reads successfully exactly when every name field, as `read(64)` returns it, decodes |
| SkinReader.NameTableValues | lol2gltfGUI/lol2gltf.py:218-221 | however short the file, after a successful read, mesh i's name is field i decoded and stripped, in file order |
| SkinReader.NameTableFirstError | lol2gltfGUI/lol2gltf.py:218-219 | however short the file, a failed table read reports the first field that does not decode, and all fields before it decode |
| SkinReader.ReadNamesShort | lol2gltfGUI/lol2gltf.py:218-221 | when the first field is cut short by the end of the file, the read fails at that mesh iff the partial field does not decode, and otherwise gives its stripped text followed by empty names for the remaining meshes |
| SkinReader.ShortTable | lol2gltfGUI/lol2gltf.py:218-221 | for a table whose first field is cut short, the read succeeds iff every field decodes, and then gives each field decoded and stripped |
| SkinReader.ReadNamesPastEnd | lol2gltfGUI/lol2gltf.py:219-221 | once the cursor is past the end of the file, each remaining mesh is named by the empty string |
| SkinReader.TruncatedTable | lol2gltfGUI/lol2gltf.py:217-221 | a version 2/4 file ending right after its mesh count reads successfully as that many empty names |
| SkinReader.MeshTable | lol2gltfGUI/lol2gltf.py:217-221 | for a version 2/4 file of any length, the read succeeds iff every field decodes; it yields the decoded and stripped fields in order, or fails at the first bad field |
| SkinReader.PartialNameTable | lol2gltfGUI/lol2gltf.py:217-221 | a version 2/4 file that ends inside its first name field fails at mesh 0 iff the partial field does not decode, and otherwise gives that field's stripped text and an empty name for every later mesh |
| SkinReader.CutCharacterRejected | lol2gltfGUI/lol2gltf.py:219 | a one-mesh file ending two bytes into a three-byte UTF-8 sequence fails at mesh 0 |
| SkinReader.NoMeshes | lol2gltfGUI/lol2gltf.py:217-218 | a version 2/4 file declaring zero meshes is a successful read of the empty list |
| SkinWriter.NameFieldRoundTrip | lol2gltfGUI/lol2gltf.py:219 | a name with no trailing NUL, NUL-padded to 64 bytes, decodes and strips back to itself |
| SkinWriter.TableField | lol2gltfGUI/lol2gltf.py:218-221 | in a written table, entry i's padded name sits at offset 80*i |
| SkinWriter.WrittenHeader | lol2gltfGUI/lol2gltf.py:202-217 | a written header reads back as the signature, the chosen version and the entry count |
| SkinWriter.WrittenNameFields | lol2gltfGUI/lol2gltf.py:218-221 | every name field of a written file is present and holds that entry's padded name |
| SkinWriter.RoundTrip | lol2gltfGUI/lol2gltf.py:198-223 | writing fitting names, none ending in NUL, with any 16 skipped bytes and any trailing bytes, then reading, gives back exactly those names in order, duplicates included |
| Validation.FirstFailure | lol2gltfGUI/lol2gltf.py:115-135 | the verdict is Valid iff every check passes; otherwise it is the error of a failing check before which all checks pass |
| Validation.WithDirectory | lol2gltfGUI/lol2gltf.py:126-128 | `os.makedirs` leaves the output directory and each of its ancestors existing, keeps every existing path, and adds no path other than the directory and its ancestors |
| Validation.ValidateInOrder | lol2gltfGUI/lol2gltf.py:117-134 | the verdict is the first failure among mesh, skeleton, output named, output directory available and converter executable; the directory and its missing ancestors are created only when the first three checks pass, the directory is missing and making it succeeds, and nothing else changes |
| Validation.ToolNameCreatedAsParent | lol2gltfGUI/lol2gltf.py:126-134 | with output directory `lol2gltf.exe/x` made by `os.makedirs`, the name `lol2gltf.exe` exists when the converter is checked, and the verdict is decided by whether it may be executed |
| Validation.EmptyMeshRejectedFirst | lol2gltfGUI/lol2gltf.py:117-119 | an empty mesh path is rejected as such whatever the filesystem holds, and nothing is created |
| Validation.ValidateIdempotent | lol2gltfGUI/lol2gltf.py:126-135 | after the checks pass, running them again on the resulting filesystem passes and changes nothing |
| Command.OutputNameComponent | lol2gltfGUI/lol2gltf.py:148 | the output file name (the mesh's stem plus ".glb") holds no separator, so it is a single relative path component |
| Command.OutputPathShape | lol2gltfGUI/lol2gltf.py:148-149 | the output file is the mesh file's stem plus ".glb", lying directly in the output directory with exactly one separator |
| Command.Selected | lol2gltfGUI/lol2gltf.py:152-157 | pairs only come from rows inside both lists and have non-empty textures; every such row's pair is included |
| Command.SelectedAppend | lol2gltfGUI/lol2gltf.py:154-157 | selection from consecutive blocks of rows is the concatenation of the selections, so the pairs keep their row order |
| Command.SelectedSingle | lol2gltfGUI/lol2gltf.py:155-157 | a row is kept exactly when its texture entry is not empty |
| Command.SelectedTruncates | lol2gltfGUI/lol2gltf.py:154 | rows beyond the shorter of the two lists are ignored, as `zip` ignores them |
| Command.SelectedAll | lol2gltfGUI/lol2gltf.py:154-157 | when every texture entry is filled in, every material is paired with its texture, in order |
| Command.Arguments | lol2gltfGUI/lol2gltf.py:160-165 | every vector starts with exactly `lol2gltf skn2gltf -m <skn> -s <skl> -g <glb_path>` |
| Command.TextureArgumentsRoundTrip | lol2gltfGUI/lol2gltf.py:172-174 | the texture flags read back as the same pairs: names after "--materials" and paths after "--textures" are equal in number and paired in order |
| Command.TextureArgumentsCanonical | lol2gltfGUI/lol2gltf.py:172-174 | every texture-flag sequence that reads back is exactly the flags of the pairs read |
| Command.ArgumentsRoundTrip | lol2gltfGUI/lol2gltf.py:160-174 | reading a built vector back gives the request it was built from |
| Command.ParseArgumentsCanonical | lol2gltfGUI/lol2gltf.py:160-174 | every vector that reads back is exactly the vector built from the request read |
| Command.PlainArguments | lol2gltfGUI/lol2gltf.py:160-165 | with no animation directory and no texture, the vector is the eight fixed tokens alone |
| Command.AnimationFlag | lol2gltfGUI/lol2gltf.py:167-169 | "-a" and the animation directory sit right after the fixed tokens exactly when a directory is given |
| Command.TextureFlags | lol2gltfGUI/lol2gltf.py:152-174 | the texture flags are emitted exactly when some material has a non-empty texture entry at the same position |
| Command.OptionalArguments | lol2gltfGUI/lol2gltf.py:167-174 | "-a" and the directory follow the fixed tokens iff a directory is given; the texture flags appear iff some paired texture entry is non-empty |
| Command.SecondMaterialUnpaired | lol2gltfGUI/lol2gltf.py:152-157 | with materials [A, B] and textures [t, ""], only (A, t) is paired |
| Command.SinglePairArguments | lol2gltfGUI/lol2gltf.py:160-174 | with no animation directory and one selected pair, the vector is the eight fixed tokens followed by `--materials <material> --textures <texture>` |
| Command.SecondMaterialOmitted | lol2gltfGUI/lol2gltf.py:152-174 | with materials [A, B] and textures [t, ""], the vector ends in `--materials A --textures t` and B is not sent |
| Command.ExampleOutputPath | lol2gltfGUI/lol2gltf.py:148-149 | "body.skn" converted into "out" is written to "out/body.glb" |
| Conversion.Convert | lol2gltfGUI/lol2gltf.py:137-174 | a vector is produced exactly when the checks pass, otherwise the failing check is reported; the filesystem is the checks' result, and the vector reads back as the request built from the form |
| Conversion.ConvertIdempotent | lol2gltfGUI/lol2gltf.py:137-174 | converting again after a successful attempt yields the identical vector and filesystem |

## Left out

- Tkinter widgets, layout and the footer row arithmetic (lines 20-113, 228-292): these are presentation only.
- `messagebox`, `filedialog` and `webbrowser`: these are user-interface calls. Each error's message text is represented only by its error kind.
- `subprocess.run`, its exit status and the `CalledProcessError` report (lines 177-180): the model ends at the argument vector.
- Opening the skin file: `Parse` receives the file's bytes. A file that cannot be opened makes the source return an empty list, as `GetMaterials` does for every error.
- Real filesystem effects of `os.path.exists`, `os.makedirs` and `os.access`: an oracle replaces them. A failing `makedirs` is assumed to create nothing, and a directory it creates is not made executable.
- Windows path rules (`ntpath`, backslash separators): only '/' separates path components.
- Path normalisation: the filesystem oracle compares paths as strings, so `a/./b`, `a//b` and `a/b` name different entries.
- The running time of a header that declares billions of meshes: the model computes the same list the loop would.
- `on_skn_file_selected` and the texture rows it creates: the model takes the material list and the texture entries as plain sequences.
- Command.Selected: its own contract does not fix the order of the pairs. Command.SelectedAppend and Command.SelectedSingle state the order and together determine the result.
