/** The header reader of a Simple Skin (.skn) file: signature, version, and the material
    name of every mesh. Bytes are read the way a Python binary file reads them: `read(n)`
    returns fewer than n bytes (possibly none) near or past the end of the file, `seek`
    may move past the end, and unpacking a fixed-width integer from a short read fails. */
module SkinReader {
  import opened Wrappers
  import opened Bytes
  import Utf8
  import Paths

  const Signature: nat := 0x0011_2233
  /** Width of the NUL-padded material name field of a mesh entry. */
  const NameFieldSize: nat := 64
  /** Bytes of each mesh entry after its name, skipped by the reader. */
  const SkippedPerMesh: nat := 16
  /** Bytes of one whole mesh entry: NameFieldSize + SkippedPerMesh, written as a literal so
      that offsets stay linear in the entry index. */
  const MeshEntrySize: nat := 80
  /** Offset of the first mesh entry in a version 2 or 4 file. */
  const TableOffset: nat := 12
  const Nul: char := '\0'

  /** Why a file yields no material list. */
  datatype ParseError =
    | ShortRead(offset: nat, width: nat)          // fewer than width bytes where an integer was unpacked
    | BadSignature(signature: nat)                // the first four bytes are not the skin signature
    | UnsupportedVersion(major: nat, minor: nat)  // not 0.1, 2.1 or 4.1
    | InvalidName(mesh: nat)                      // the name field of this mesh is not UTF-8

  predicate SupportedVersion(major: nat, minor: nat) {
    major in {0, 2, 4} && minor == 1
  }

  function Min(a: nat, b: nat): nat {
    if a <= b then a else b
  }

  /** `read(n)` with the cursor at pos: the longest slice of at most n bytes there. */
  function Read(data: seq<uint8>, pos: nat, n: nat): (r: seq<uint8>)
    ensures pos + n <= |data| ==> r == data[pos..pos + n]
    ensures pos + n > |data| ==> r == data[Min(pos, |data|)..]
  {
    if pos >= |data| then [] else data[pos..Min(pos + n, |data|)]
  }

  /** `struct.unpack('<H' or '<I', read(width))` with the cursor at pos. */
  function ReadUnsigned(data: seq<uint8>, pos: nat, width: nat): (r: Result<nat, ParseError>)
    requires width in {2, 4}
    ensures r.Success? <==> pos + width <= |data|
    ensures r.Success? ==> r.value == FromLittleEndian(data[pos..pos + width])
    ensures r.Failure? ==> r.error == ShortRead(pos, width)
  {
    var b := Read(data, pos, width);
    if |b| != width then Failure(ShortRead(pos, width)) else Success(FromLittleEndian(b))
  }

  predicate NoTrailingNul(s: string) {
    |s| == 0 || s[|s| - 1] != Nul
  }

  /** `s.rstrip('\x00')`: the longest prefix of s that is followed only by NULs and
      does not itself end in one. */
  function StripNul(s: string): (r: string)
    ensures NoTrailingNul(r)
    ensures |r| <= |s| && r == s[..|r|]
    ensures forall k :: |r| <= k < |s| ==> s[k] == Nul
  {
    if |s| > 0 && s[|s| - 1] == Nul then StripNul(s[..|s| - 1]) else s
  }

  /** Stripping twice strips nothing more. */
  lemma StripNulIdempotent(s: string)
    ensures StripNul(StripNul(s)) == StripNul(s)
  {
  }

  /** Padding a name without trailing NULs with NULs and stripping gives the name back. */
  lemma {:induction false} StripNulPadding(s: string, n: nat)
    requires NoTrailingNul(s)
    ensures StripNul(s + seq(n, _ => Nul)) == s
  {
    if n > 0 {
      var padded := s + seq(n, _ => Nul);
      assert padded[..|padded| - 1] == s + seq(n - 1, _ => Nul);
      StripNulPadding(s, n - 1);
    } else {
      assert s + seq(n, _ => Nul) == s;
    }
  }

  /** The material names of count mesh entries, the first at cursor pos and numbered
      from index: each is a 64-byte read, decoded and stripped of trailing NULs, after
      which the cursor skips 16 bytes. */
  function ReadNames(data: seq<uint8>, pos: nat, count: nat, index: nat): (r: Result<seq<string>, ParseError>)
    ensures r.Success? ==> |r.value| == count
    ensures r.Success? ==> forall i :: 0 <= i < |r.value| ==> NoTrailingNul(r.value[i])
    ensures r.Failure? ==> r.error.InvalidName? && index <= r.error.mesh < index + count
    decreases count
  {
    if count == 0 then Success([])
    else
      var field := Read(data, pos, NameFieldSize);
      match Utf8.Decode(field)
      case None => Failure(InvalidName(index))
      case Some(text) =>
        var rest :- ReadNames(data, pos + |field| + SkippedPerMesh, count - 1, index + 1);
        Success([StripNul(text)] + rest)
  }

  /** The material name a legacy (major version 0) file stands for: its file name
      without extension. */
  function LegacyName(path: string): string {
    Paths.Stem(Paths.Basename(path))
  }

  /** The material names of a skin file at path with contents data. */
  function Parse(path: string, data: seq<uint8>): (r: Result<seq<string>, ParseError>)
    ensures r.Success? ==> |data| >= 8 && SignatureOf(data) == Signature
    ensures r.Success? ==> SupportedVersion(MajorOf(data), MinorOf(data))
    ensures r.Success? && MajorOf(data) == 0 ==> |r.value| == 1
    ensures r.Success? && MajorOf(data) != 0 ==>
              |data| >= TableOffset && |r.value| == MeshCountOf(data)
              && forall i :: 0 <= i < |r.value| ==> NoTrailingNul(r.value[i])
  {
    var signature :- ReadUnsigned(data, 0, 4);
    if signature != Signature then Failure(BadSignature(signature))
    else
      var major :- ReadUnsigned(data, 4, 2);
      var minor :- ReadUnsigned(data, 6, 2);
      if !SupportedVersion(major, minor) then Failure(UnsupportedVersion(major, minor))
      else if major == 0 then
        // The reader seeks over eight more header bytes and reads nothing else.
        Success([LegacyName(path)])
      else
        var count :- ReadUnsigned(data, 8, 4);
        ReadNames(data, TableOffset, count, 0)
  }

  function SignatureOf(data: seq<uint8>): nat
    requires |data| >= 4
  {
    FromLittleEndian(data[..4])
  }

  function MajorOf(data: seq<uint8>): nat
    requires |data| >= 6
  {
    FromLittleEndian(data[4..6])
  }

  function MinorOf(data: seq<uint8>): nat
    requires |data| >= 8
  {
    FromLittleEndian(data[6..8])
  }

  function MeshCountOf(data: seq<uint8>): nat
    requires |data| >= 12
  {
    FromLittleEndian(data[8..12])
  }

  /** What the reader hands to its caller: the names, or an empty list on any error. The
      caller receives an empty list exactly when reading fails or when a version 2 or 4
      file declares no meshes, and cannot tell the two apart; a non-empty list is always
      the complete result of a successful read. */
  function GetMaterials(path: string, data: seq<uint8>): (r: seq<string>)
    ensures r == [] <==>
              Parse(path, data).Failure?
              || (Parse(path, data).Success? && |data| >= TableOffset
                  && MajorOf(data) != 0 && MeshCountOf(data) == 0)
    ensures r != [] ==> Parse(path, data).Success? && r == Parse(path, data).value
  {
    match Parse(path, data)
    case Success(names) => names
    case Failure(_) => []
  }

  /** The gates as the caller sees them: a file shorter than the header, one with a wrong
      signature and one with an unsupported version all give the empty list. */
  lemma RejectedFilesGiveNoMaterials(path: string, data: seq<uint8>)
    ensures |data| < 8 ==> GetMaterials(path, data) == []
    ensures |data| >= 4 && SignatureOf(data) != Signature ==> GetMaterials(path, data) == []
    ensures |data| >= 8 && !SupportedVersion(MajorOf(data), MinorOf(data)) ==>
              GetMaterials(path, data) == []
  {
    if |data| < 8 {
      ShortHeaderRejected(path, data);
    } else if SignatureOf(data) != Signature {
      SignatureGate(path, data);
    } else if !SupportedVersion(MajorOf(data), MinorOf(data)) {
      VersionGate(path, data);
    }
    if |data| >= 4 && SignatureOf(data) != Signature {
      SignatureGate(path, data);
    }
  }

  /** A file whose first four bytes are not the signature is rejected with the value
      found there, before anything else is read. */
  lemma SignatureGate(path: string, data: seq<uint8>)
    requires |data| >= 4 && SignatureOf(data) != Signature
    ensures Parse(path, data) == Failure(BadSignature(SignatureOf(data)))
  {
  }

  /** A file too short to hold the eight-byte signature and version header is rejected;
      past a correct signature the failure is the short read of a version field. */
  lemma ShortHeaderRejected(path: string, data: seq<uint8>)
    requires |data| < 8
    ensures Parse(path, data).Failure?
    ensures |data| < 4 ==> Parse(path, data) == Failure(ShortRead(0, 4))
    ensures |data| >= 4 && SignatureOf(data) == Signature ==> Parse(path, data).error.ShortRead?
  {
  }

  /** A complete header with any version other than 0.1, 2.1 or 4.1 is rejected with the
      version found. */
  lemma VersionGate(path: string, data: seq<uint8>)
    requires |data| >= 8 && SignatureOf(data) == Signature
    requires !SupportedVersion(MajorOf(data), MinorOf(data))
    ensures Parse(path, data) == Failure(UnsupportedVersion(MajorOf(data), MinorOf(data)))
  {
  }

  /** A version 0.1 file names exactly one material, its own file name without extension,
      and nothing after the eight-byte header affects that. */
  lemma LegacyFile(path: string, data: seq<uint8>, tail: seq<uint8>)
    requires |data| >= 8 && SignatureOf(data) == Signature
    requires MajorOf(data) == 0 && MinorOf(data) == 1
    ensures Parse(path, data) == Success([LegacyName(path)])
    ensures Parse(path, data[..8] + tail) == Parse(path, data)
  {
    var other := data[..8] + tail;
    assert other[..4] == data[..4] && other[4..6] == data[4..6] && other[6..8] == data[6..8];
  }

  /** The name field of mesh i of a table that starts at pos. */
  function NameField(data: seq<uint8>, pos: nat, i: nat): seq<uint8> {
    Read(data, pos + MeshEntrySize * i, NameFieldSize)
  }

  /** Every name field of a count-entry table at pos lies inside the file. */
  predicate NameFieldsPresent(data: seq<uint8>, pos: nat, count: nat) {
    count == 0 || pos + MeshEntrySize * (count - 1) + NameFieldSize <= |data|
  }

  /** When every name field is present, field i is the 64 bytes at pos + 80 * i. */
  lemma NameFieldOffsets(data: seq<uint8>, pos: nat, count: nat)
    requires NameFieldsPresent(data, pos, count)
    ensures forall i :: 0 <= i < count ==>
              NameField(data, pos, i) == data[pos + MeshEntrySize * i..pos + MeshEntrySize * i + NameFieldSize]
  {
  }

  /** Name field i + 1 of a table is name field i of the table one entry further on. */
  lemma NameFieldShift(data: seq<uint8>, pos: nat, i: nat)
    ensures NameField(data, pos, i + 1) == NameField(data, pos + MeshEntrySize, i)
  {
    assert pos + MeshEntrySize * (i + 1) == pos + MeshEntrySize + MeshEntrySize * i;
  }

  /** With the first name field present, a table read succeeds exactly when that field
      decodes and the rest of the table, one entry further on, reads successfully. */
  lemma ReadNamesStep(data: seq<uint8>, pos: nat, count: nat, index: nat)
    requires count > 0 && pos + NameFieldSize <= |data|
    ensures ReadNames(data, pos, count, index).Success? <==>
              Utf8.Decode(NameField(data, pos, 0)).Some?
              && ReadNames(data, pos + MeshEntrySize, count - 1, index + 1).Success?
  {
    assert NameField(data, pos, 0) == Read(data, pos, NameFieldSize);
  }

  /** Once the first name field is cut short by the end of the file, every later field
      lies wholly past the end and is empty. */
  lemma LaterFieldsEmpty(data: seq<uint8>, pos: nat, i: nat)
    requires pos + NameFieldSize > |data| && i >= 1
    ensures NameField(data, pos, i) == []
  {
  }

  /** A table whose first name field is cut short by the end of the file: it fails on
      that field when the field does not decode, and otherwise every later mesh, whose
      read starts past the end, is named by the empty string. */
  lemma ReadNamesShort(data: seq<uint8>, pos: nat, count: nat, index: nat)
    requires count > 0 && pos + NameFieldSize > |data|
    ensures Utf8.Decode(NameField(data, pos, 0)).None? ==>
              ReadNames(data, pos, count, index) == Failure(InvalidName(index))
    ensures Utf8.Decode(NameField(data, pos, 0)).Some? ==>
              ReadNames(data, pos, count, index)
              == Success([StripNul(Utf8.Decode(NameField(data, pos, 0)).value)] + seq(count - 1, _ => ""))
  {
    var field := Read(data, pos, NameFieldSize);
    assert NameField(data, pos, 0) == field;
    ReadNamesPastEnd(data, pos + |field| + SkippedPerMesh, count - 1, index + 1);
  }

  /** A table whose first field is cut short reads successfully exactly when every field
      decodes, and then mesh i is named by field i decoded and stripped. */
  lemma ShortTable(data: seq<uint8>, pos: nat, count: nat, index: nat)
    requires count > 0 && pos + NameFieldSize > |data|
    ensures ReadNames(data, pos, count, index).Success? <==>
              forall i :: 0 <= i < count ==> Utf8.Decode(NameField(data, pos, i)).Some?
    ensures ReadNames(data, pos, count, index).Success? ==>
              forall i :: 0 <= i < count ==>
                && Utf8.Decode(NameField(data, pos, i)).Some?
                && ReadNames(data, pos, count, index).value[i] == StripNul(Utf8.Decode(NameField(data, pos, i)).value)
  {
    ReadNamesShort(data, pos, count, index);
    var r := ReadNames(data, pos, count, index);
    forall i | 1 <= i < count
      ensures Utf8.Decode(NameField(data, pos, i)) == Some([])
    {
      LaterFieldsEmpty(data, pos, i);
    }
    if r.Success? {
      forall i | 1 <= i < count
        ensures r.value[i] == StripNul(Utf8.Decode(NameField(data, pos, i)).value)
      {
        assert r.value[i] == "";
      }
    }
  }

  /** One step of NameTableDecodes over a whole first field: the iff for the table one
      entry further on gives the iff for this table. */
  lemma DecodesStep(data: seq<uint8>, pos: nat, next: nat, count: nat, index: nat)
    requires count > 0 && pos + NameFieldSize <= |data| && next == pos + MeshEntrySize
    requires ReadNames(data, next, count - 1, index + 1).Success? <==>
               forall i :: 0 <= i < count - 1 ==> Utf8.Decode(NameField(data, next, i)).Some?
    ensures ReadNames(data, pos, count, index).Success? <==>
              forall i :: 0 <= i < count ==> Utf8.Decode(NameField(data, pos, i)).Some?
  {
    ReadNamesStep(data, pos, count, index);
    if forall i :: 0 <= i < count ==> Utf8.Decode(NameField(data, pos, i)).Some? {
      forall i | 0 <= i < count - 1
        ensures Utf8.Decode(NameField(data, next, i)).Some?
      {
        NameFieldShift(data, pos, i);
      }
    }
    if ReadNames(data, pos, count, index).Success? {
      forall i | 0 <= i < count
        ensures Utf8.Decode(NameField(data, pos, i)).Some?
      {
        if i > 0 {
          NameFieldShift(data, pos, i - 1);
        }
      }
    }
  }

  /** The table reads successfully exactly when every name field decodes, where a field
      cut short by the end of the file is decoded as it is and later fields are empty. */
  lemma {:induction false} NameTableDecodes(data: seq<uint8>, pos: nat, count: nat, index: nat)
    ensures ReadNames(data, pos, count, index).Success? <==>
              forall i :: 0 <= i < count ==> Utf8.Decode(NameField(data, pos, i)).Some?
    decreases count
  {
    if count > 0 && pos + NameFieldSize > |data| {
      ShortTable(data, pos, count, index);
    } else if count > 0 {
      NameTableDecodes(data, pos + MeshEntrySize, count - 1, index + 1);
      DecodesStep(data, pos, pos + MeshEntrySize, count, index);
    }
  }

  /** One step of NameTableValues over a whole first field. */
  lemma ValuesStep(data: seq<uint8>, pos: nat, next: nat, count: nat, index: nat)
    requires count > 0 && pos + NameFieldSize <= |data| && next == pos + MeshEntrySize
    requires ReadNames(data, pos, count, index).Success?
    requires ReadNames(data, next, count - 1, index + 1).Success?
    requires var rest := ReadNames(data, next, count - 1, index + 1);
             forall i :: 0 <= i < count - 1 ==>
               && Utf8.Decode(NameField(data, next, i)).Some?
               && rest.value[i] == StripNul(Utf8.Decode(NameField(data, next, i)).value)
    ensures forall i :: 0 <= i < count ==>
              && Utf8.Decode(NameField(data, pos, i)).Some?
              && ReadNames(data, pos, count, index).value[i] == StripNul(Utf8.Decode(NameField(data, pos, i)).value)
  {
    var field := Read(data, pos, NameFieldSize);
    assert |field| == NameFieldSize && NameField(data, pos, 0) == field;
    var r := ReadNames(data, pos, count, index);
    var rest := ReadNames(data, next, count - 1, index + 1);
    assert r.value == [StripNul(Utf8.Decode(field).value)] + rest.value;
    forall i | 1 <= i < count
      ensures Utf8.Decode(NameField(data, pos, i)).Some?
      ensures r.value[i] == StripNul(Utf8.Decode(NameField(data, pos, i)).value)
    {
      assert r.value[i] == rest.value[i - 1];
      NameFieldShift(data, pos, i - 1);
    }
  }

  /** When the table reads successfully, mesh i's name is field i decoded and stripped of
      trailing NULs; past a field cut short by the end of the file that is the empty
      string. */
  lemma {:induction false} NameTableValues(data: seq<uint8>, pos: nat, count: nat, index: nat)
    requires ReadNames(data, pos, count, index).Success?
    ensures forall i :: 0 <= i < count ==>
              && Utf8.Decode(NameField(data, pos, i)).Some?
              && ReadNames(data, pos, count, index).value[i] == StripNul(Utf8.Decode(NameField(data, pos, i)).value)
    decreases count
  {
    if count > 0 && pos + NameFieldSize > |data| {
      ShortTable(data, pos, count, index);
    } else if count > 0 {
      ReadNamesStep(data, pos, count, index);
      NameTableValues(data, pos + MeshEntrySize, count - 1, index + 1);
      ValuesStep(data, pos, pos + MeshEntrySize, count, index);
    }
  }

  /** A table whose whole first field decodes fails exactly as the table one entry
      further on does. */
  lemma FailureStep(data: seq<uint8>, pos: nat, count: nat, index: nat)
    requires count > 0 && pos + NameFieldSize <= |data|
    requires Utf8.Decode(NameField(data, pos, 0)).Some?
    requires ReadNames(data, pos, count, index).Failure?
    ensures ReadNames(data, pos + MeshEntrySize, count - 1, index + 1).Failure?
    ensures ReadNames(data, pos + MeshEntrySize, count - 1, index + 1).error == ReadNames(data, pos, count, index).error
  {
    assert NameField(data, pos, 0) == Read(data, pos, NameFieldSize);
  }

  /** One step of NameTableFirstError: the first bad field of the table one entry further
      on, at j there, is the first bad field of this table, at j + 1. */
  lemma FirstErrorStep(data: seq<uint8>, pos: nat, next: nat, j: nat)
    requires next == pos + MeshEntrySize
    requires Utf8.Decode(NameField(data, pos, 0)).Some?
    requires Utf8.Decode(NameField(data, next, j)).None?
    requires forall i :: 0 <= i < j ==> Utf8.Decode(NameField(data, next, i)).Some?
    ensures Utf8.Decode(NameField(data, pos, j + 1)).None?
    ensures forall i :: 0 <= i < j + 1 ==> Utf8.Decode(NameField(data, pos, i)).Some?
  {
    NameFieldShift(data, pos, j);
    forall i | 1 <= i < j + 1
      ensures Utf8.Decode(NameField(data, pos, i)).Some?
    {
      NameFieldShift(data, pos, i - 1);
    }
  }

  /** A table whose first field is cut short, or does not decode, fails there if at all. */
  lemma FirstErrorHere(data: seq<uint8>, pos: nat, count: nat, index: nat)
    requires ReadNames(data, pos, count, index).Failure?
    requires pos + NameFieldSize > |data| || Utf8.Decode(NameField(data, pos, 0)).None?
    ensures ReadNames(data, pos, count, index).error.mesh == index
    ensures Utf8.Decode(NameField(data, pos, 0)).None?
  {
    if pos + NameFieldSize > |data| {
      ReadNamesShort(data, pos, count, index);
    } else {
      assert NameField(data, pos, 0) == Read(data, pos, NameFieldSize);
    }
  }

  /** When the table fails, it fails at the first field that does not decode. */
  lemma {:induction false} NameTableFirstError(data: seq<uint8>, pos: nat, count: nat, index: nat)
    requires ReadNames(data, pos, count, index).Failure?
    ensures var k := ReadNames(data, pos, count, index).error.mesh - index;
            && Utf8.Decode(NameField(data, pos, k)).None?
            && forall i :: 0 <= i < k ==> Utf8.Decode(NameField(data, pos, i)).Some?
    decreases count
  {
    if pos + NameFieldSize > |data| || Utf8.Decode(NameField(data, pos, 0)).None? {
      FirstErrorHere(data, pos, count, index);
    } else {
      var next := pos + MeshEntrySize;
      FailureStep(data, pos, count, index);
      NameTableFirstError(data, next, count - 1, index + 1);
      var j := ReadNames(data, next, count - 1, index + 1).error.mesh - (index + 1);
      FirstErrorStep(data, pos, next, j);
    }
  }

  /** Once the cursor is past the end of the file, every remaining read returns no bytes,
      so every remaining mesh is named by the empty string. */
  lemma {:induction false} ReadNamesPastEnd(data: seq<uint8>, pos: nat, count: nat, index: nat)
    requires pos >= |data|
    ensures ReadNames(data, pos, count, index) == Success(seq(count, _ => ""))
    decreases count
  {
    if count > 0 {
      assert Read(data, pos, NameFieldSize) == [];
      assert Utf8.Decode([]) == Some([]);
      ReadNamesPastEnd(data, pos + SkippedPerMesh, count - 1, index + 1);
      assert StripNul("") == "";
      var empty: string := "";
      assert seq(count, _ => empty) == [empty] + seq(count - 1, _ => empty);
    } else {
      assert seq(count, _ => "") == [];
    }
  }

  /** A version 2 or 4 file that ends right after its mesh count still reads
      successfully: it names that many meshes, each with the empty string. */
  lemma TruncatedTable(path: string, data: seq<uint8>)
    requires |data| == TableOffset && SignatureOf(data) == Signature
    requires MajorOf(data) in {2, 4} && MinorOf(data) == 1
    ensures Parse(path, data) == Success(seq(MeshCountOf(data), _ => ""))
  {
    ReadNamesPastEnd(data, TableOffset, MeshCountOf(data), 0);
  }

  /** For a version 2 or 4 file, the result is the decoded, stripped fields in file order,
      or the first undecodable one's error, however short the table is. */
  lemma MeshTable(path: string, data: seq<uint8>)
    requires |data| >= TableOffset && SignatureOf(data) == Signature
    requires MajorOf(data) in {2, 4} && MinorOf(data) == 1
    ensures var n := MeshCountOf(data);
            Parse(path, data).Success? <==> forall i :: 0 <= i < n ==> Utf8.Decode(NameField(data, TableOffset, i)).Some?
    ensures var n := MeshCountOf(data);
            Parse(path, data).Success? ==>
              forall i :: 0 <= i < n ==>
                Parse(path, data).value[i] == StripNul(Utf8.Decode(NameField(data, TableOffset, i)).value)
    ensures Parse(path, data).Failure? ==>
              var k := Parse(path, data).error.mesh;
              && k < MeshCountOf(data)
              && Utf8.Decode(NameField(data, TableOffset, k)).None?
              && forall i :: 0 <= i < k ==> Utf8.Decode(NameField(data, TableOffset, i)).Some?
  {
    NameTableDecodes(data, TableOffset, MeshCountOf(data), 0);
    if Parse(path, data).Success? {
      NameTableValues(data, TableOffset, MeshCountOf(data), 0);
    } else {
      NameTableFirstError(data, TableOffset, MeshCountOf(data), 0);
    }
  }

  /** A version 2 or 4 file whose table ends inside the first name field: that partial
      field is decoded as it is, and every later mesh is named by the empty string. The
      read fails, on mesh 0, only when the partial field does not decode. */
  lemma PartialNameTable(path: string, data: seq<uint8>)
    requires TableOffset <= |data| < TableOffset + NameFieldSize && SignatureOf(data) == Signature
    requires MajorOf(data) in {2, 4} && MinorOf(data) == 1 && MeshCountOf(data) > 0
    ensures Utf8.Decode(data[TableOffset..]).None? ==> Parse(path, data) == Failure(InvalidName(0))
    ensures Utf8.Decode(data[TableOffset..]).Some? ==>
              Parse(path, data)
              == Success([StripNul(Utf8.Decode(data[TableOffset..]).value)] + seq(MeshCountOf(data) - 1, _ => ""))
  {
    assert NameField(data, TableOffset, 0) == data[TableOffset..];
    ReadNamesShort(data, TableOffset, MeshCountOf(data), 0);
  }

  /** A version 2 or 4 file declaring no meshes reads successfully as the empty list. */
  lemma NoMeshes(path: string, data: seq<uint8>)
    requires |data| >= TableOffset && SignatureOf(data) == Signature
    requires MajorOf(data) in {2, 4} && MinorOf(data) == 1 && MeshCountOf(data) == 0
    ensures Parse(path, data) == Success([])
  {
  }

  /** The header of a version 2.1 file declaring one mesh. */
  lemma OneMeshHeader(data: seq<uint8>)
    requires |data| >= TableOffset && data[..TableOffset] == [0x33, 0x22, 0x11, 0x00, 2, 0, 1, 0, 1, 0, 0, 0]
    ensures SignatureOf(data) == Signature && MajorOf(data) == 2 && MinorOf(data) == 1
    ensures MeshCountOf(data) == 1
  {
    var header := data[..TableOffset];
    assert SignatureOf(data) == Signature by {
      assert data[..4] == header[..4] == [0x33, 0x22, 0x11, 0x00];
      assert FromLittleEndian([0x00]) == 0;
      assert FromLittleEndian([0x11, 0x00]) == 0x11;
      assert FromLittleEndian([0x22, 0x11, 0x00]) == 0x1122;
    }
    assert MajorOf(data) == 2 && MinorOf(data) == 1 by {
      assert data[4..6] == header[4..6] == [2, 0];
      assert data[6..8] == header[6..8] == [1, 0];
      assert FromLittleEndian([0]) == 0;
    }
    assert MeshCountOf(data) == 1 by {
      assert data[8..12] == header[8..12] == [1, 0, 0, 0];
      assert FromLittleEndian([0, 0]) == 0;
      assert FromLittleEndian([0, 0, 0]) == 0;
    }
  }

  /** A table cut short inside a multi-byte character is an error: a version 2.1 file
      declaring one mesh whose only table bytes are the first two of a three-byte
      sequence fails on that mesh's name. */
  lemma CutCharacterRejected(path: string)
    ensures Parse(path, [0x33, 0x22, 0x11, 0x00, 2, 0, 1, 0, 1, 0, 0, 0, 0xE2, 0x82])
            == Failure(InvalidName(0))
  {
    var data: seq<uint8> := [0x33, 0x22, 0x11, 0x00, 2, 0, 1, 0, 1, 0, 0, 0, 0xE2, 0x82];
    OneMeshHeader(data);
    assert data[TableOffset..] == [0xE2, 0x82];
    Utf8.CutSequenceRejected();
    PartialNameTable(path, data);
  }
}
