/** The version 2 and 4 skin layout as a writer produces it, and the round trip through
    the reader: header, then per mesh a NUL-padded 64-byte name and 16 further bytes. */
module SkinWriter {
  import opened Wrappers
  import opened Bytes
  import Utf8
  import opened SkinReader

  /** A mesh entry: its material name and the 16 bytes the reader skips over. */
  datatype MeshEntry = MeshEntry(material: string, skipped: seq<uint8>)

  /** An entry a writer can lay out so that the reader recovers its name: the encoded name
      fits the field and does not itself end in NUL, and the skipped part is 16 bytes. */
  predicate Writable(e: MeshEntry) {
    && |Utf8.Encode(e.material)| <= NameFieldSize
    && NoTrailingNul(e.material)
    && |e.skipped| == SkippedPerMesh
  }

  predicate AllWritable(entries: seq<MeshEntry>) {
    forall i :: 0 <= i < |entries| ==> Writable(entries[i])
  }

  function EncodeNameField(name: string): (r: seq<uint8>)
    requires |Utf8.Encode(name)| <= NameFieldSize
    ensures |r| == NameFieldSize
  {
    Utf8.Encode(name) + Zeros(NameFieldSize - |Utf8.Encode(name)|)
  }

  function EncodeTable(entries: seq<MeshEntry>): (r: seq<uint8>)
    requires AllWritable(entries)
    ensures |r| == MeshEntrySize * |entries|
  {
    if |entries| == 0 then []
    else EncodeNameField(entries[0].material) + entries[0].skipped + EncodeTable(entries[1..])
  }

  /** A whole file: header with the given major version and minor version 1, the mesh
      table, then any further bytes (vertex and index data the reader never reaches). */
  function EncodeSkin(major: nat, entries: seq<MeshEntry>, rest: seq<uint8>): (r: seq<uint8>)
    requires major in {2, 4} && |entries| < Pow256(4) && AllWritable(entries)
    ensures |r| == TableOffset + MeshEntrySize * |entries| + |rest|
  {
    ToLittleEndian(Signature, 4) + ToLittleEndian(major, 2) + ToLittleEndian(1, 2)
    + ToLittleEndian(|entries|, 4) + EncodeTable(entries) + rest
  }

  function Materials(entries: seq<MeshEntry>): (r: seq<string>)
    ensures |r| == |entries|
    ensures forall i :: 0 <= i < |entries| ==> r[i] == entries[i].material
  {
    seq(|entries|, i requires 0 <= i < |entries| => entries[i].material)
  }

  lemma Pow256Values()
    ensures Pow256(2) == 0x1_0000 && Pow256(4) == 0x1_0000_0000
  {
    assert Pow256(1) == 256;
    assert Pow256(3) == 0x100_0000;
  }

  /** The name field of entry i sits at offset 80 * i of the table. */
  lemma {:induction false} TableField(entries: seq<MeshEntry>, i: nat)
    requires AllWritable(entries) && i < |entries|
    ensures EncodeTable(entries)[MeshEntrySize * i..MeshEntrySize * i + NameFieldSize]
            == EncodeNameField(entries[i].material)
  {
    var t := EncodeTable(entries);
    var head := EncodeNameField(entries[0].material) + entries[0].skipped;
    assert t == head + EncodeTable(entries[1..]);
    if i > 0 {
      TableField(entries[1..], i - 1);
      assert t[MeshEntrySize * i..MeshEntrySize * i + NameFieldSize]
          == EncodeTable(entries[1..])[MeshEntrySize * (i - 1)..MeshEntrySize * (i - 1) + NameFieldSize];
    }
  }

  /** A padded name field decodes to the name followed by NULs, which stripping removes. */
  lemma NameFieldRoundTrip(name: string)
    requires |Utf8.Encode(name)| <= NameFieldSize && NoTrailingNul(name)
    ensures Utf8.Decode(EncodeNameField(name)).Some?
    ensures StripNul(Utf8.Decode(EncodeNameField(name)).value) == name
  {
    var pad := NameFieldSize - |Utf8.Encode(name)|;
    Utf8.DecodeZeros(pad);
    Utf8.DecodeEncodeAppend(name, Zeros(pad));
    StripNulPadding(name, pad);
  }

  /** The header of a written file reads back as the signature, the chosen version and
      the number of entries. */
  lemma WrittenHeader(major: nat, entries: seq<MeshEntry>, rest: seq<uint8>)
    requires major in {2, 4} && |entries| < Pow256(4) && AllWritable(entries)
    ensures var data := EncodeSkin(major, entries, rest);
            && SignatureOf(data) == Signature && MajorOf(data) == major && MinorOf(data) == 1
            && MeshCountOf(data) == |entries|
  {
    var data := EncodeSkin(major, entries, rest);
    Pow256Values();
    FromToLittleEndian(Signature, 4);
    FromToLittleEndian(major, 2);
    FromToLittleEndian(1, 2);
    FromToLittleEndian(|entries|, 4);
    assert data[..4] == ToLittleEndian(Signature, 4);
    assert data[4..6] == ToLittleEndian(major, 2);
    assert data[6..8] == ToLittleEndian(1, 2);
    assert data[8..12] == ToLittleEndian(|entries|, 4);
  }

  /** Name field i of a written file holds entry i's padded name. */
  lemma WrittenNameFields(major: nat, entries: seq<MeshEntry>, rest: seq<uint8>)
    requires major in {2, 4} && |entries| < Pow256(4) && AllWritable(entries)
    ensures NameFieldsPresent(EncodeSkin(major, entries, rest), TableOffset, |entries|)
    ensures forall i :: 0 <= i < |entries| ==>
              NameField(EncodeSkin(major, entries, rest), TableOffset, i) == EncodeNameField(entries[i].material)
  {
    var data := EncodeSkin(major, entries, rest);
    var table := EncodeTable(entries);
    assert data[TableOffset..TableOffset + |table|] == table;
    NameFieldOffsets(data, TableOffset, |entries|);
    forall i | 0 <= i < |entries|
      ensures NameField(data, TableOffset, i) == EncodeNameField(entries[i].material)
    {
      TableField(entries, i);
      assert data[TableOffset + MeshEntrySize * i..TableOffset + MeshEntrySize * i + NameFieldSize]
          == table[MeshEntrySize * i..MeshEntrySize * i + NameFieldSize];
    }
  }

  /** Writing entries and reading the file back gives their material names, in order,
      duplicates included, whatever the skipped bytes and the bytes after the table. */
  lemma RoundTrip(path: string, major: nat, entries: seq<MeshEntry>, rest: seq<uint8>)
    requires major in {2, 4} && |entries| < Pow256(4) && AllWritable(entries)
    ensures Parse(path, EncodeSkin(major, entries, rest)) == Success(Materials(entries))
  {
    var data := EncodeSkin(major, entries, rest);
    WrittenHeader(major, entries, rest);
    WrittenNameFields(major, entries, rest);
    forall i | 0 <= i < |entries|
      ensures Utf8.Decode(NameField(data, TableOffset, i)).Some?
      ensures StripNul(Utf8.Decode(NameField(data, TableOffset, i)).value) == entries[i].material
    {
      NameFieldRoundTrip(entries[i].material);
    }
    MeshTable(path, data);
    assert Parse(path, data).value == Materials(entries);
  }
}
