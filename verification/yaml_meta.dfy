/** The meta header written by the YAML meta serializer: the magic string and
    its NUL terminator, the format version as a little-endian 64-bit integer,
    a reserved string-table size that is always zero, and, when the remarks
    live in a separate file, that file's absolute path with a NUL terminator. */
module YamlMeta {
  import opened Ints
  import opened Optional
  import opened Endian

  /** A meta serializer, bound at construction to an optional external remark
      file name. */
  datatype YAMLMetaSerializer = YAMLMetaSerializer(externalFilename: Option<seq<byte>>)

  /** What a reader finds in a meta header after the magic. */
  datatype MetaHeader = MetaHeader(version: uint64, strTabSize: uint64, externalFile: Option<seq<byte>>)

  /** Bytes between the start of the version field and the end of the
      string-table size field. */
  const FixedFieldsSize: nat := 16

  /** `emitMagic`: the magic string and one NUL byte. */
  function EmitMagic(magic: seq<byte>): (out: seq<byte>)
    ensures |out| == |magic| + 1
    ensures out[..|magic|] == magic && out[|magic|] == 0
  {
    magic + [0]
  }

  /** `emitVersion`: the version as eight little-endian bytes. */
  function EmitVersion(version: uint64): (out: seq<byte>)
    ensures |out| == 8
    ensures Read64le(out) == version
  {
    Read64leWrite64le(version);
    Write64le(version)
  }

  /** `emitExternalFile`: the absolute form of `filename` and one NUL byte.
      `makeAbsolute` stands for `sys::fs::make_absolute`; the source asserts
      that the path it yields is not empty. */
  function EmitExternalFile(filename: seq<byte>, makeAbsolute: seq<byte> -> seq<byte>): (out: seq<byte>)
    requires |makeAbsolute(filename)| > 0
    ensures |out| == |makeAbsolute(filename)| + 1 && |out| >= 2
    ensures out[..|out| - 1] == makeAbsolute(filename) && out[|out| - 1] == 0
  {
    makeAbsolute(filename) + [0]
  }

  /** The precondition of `emit`: an external file name must not resolve to an
      empty path. */
  predicate ResolvesNonEmpty(externalFilename: Option<seq<byte>>, makeAbsolute: seq<byte> -> seq<byte>)
  {
    externalFilename.Some? ==> |makeAbsolute(externalFilename.value)| > 0
  }

  /** The part of the header every meta serializer writes: magic, NUL,
      version, and the string-table size, which is always zero (a leftover of
      the removed YAML string table, kept so the header layout stays the same). */
  function FixedPart(magic: seq<byte>, version: uint64): (out: seq<byte>)
    ensures |out| == |magic| + 1 + FixedFieldsSize
    ensures out[..|magic|] == magic && out[|magic|] == 0
    ensures out[|magic| + 1..|magic| + 9] == Write64le(version)
    ensures out[|magic| + 9..] == [0, 0, 0, 0, 0, 0, 0, 0]
  {
    var strTabSize: uint64 := 0;
    Write64leZero();
    var head := EmitMagic(magic);
    var out := head + EmitVersion(version) + Write64le(strTabSize);
    assert out[..|magic|] == head[..|magic|];
    assert out[|magic| + 1..|magic| + 9] == EmitVersion(version);
    assert out[|magic| + 9..] == Write64le(strTabSize);
    out
  }

  /** `YAMLMetaSerializer::emit`: the whole meta header. `magic` and `version`
      stand for `remarks::Magic` and `remarks::CurrentRemarkVersion`. */
  function Emit(ms: YAMLMetaSerializer, magic: seq<byte>, version: uint64,
                makeAbsolute: seq<byte> -> seq<byte>): (out: seq<byte>)
    requires ResolvesNonEmpty(ms.externalFilename, makeAbsolute)
    ensures |out| >= |magic| + 1 + FixedFieldsSize
    ensures out[..|magic| + 1 + FixedFieldsSize] == FixedPart(magic, version)
    ensures ms.externalFilename.None? <==> |out| == |magic| + 1 + FixedFieldsSize
    ensures ms.externalFilename.Some? ==>
      out[|magic| + 1 + FixedFieldsSize..] == makeAbsolute(ms.externalFilename.value) + [0]
  {
    var fixed := FixedPart(magic, version);
    match ms.externalFilename
    case None => fixed
    case Some(filename) =>
      var out := fixed + EmitExternalFile(filename, makeAbsolute);
      assert out[..|fixed|] == fixed;
      out
  }

  /** The header bytes, field by field: the magic, a NUL byte, the version in
      little-endian order, eight zero bytes, then the optional path. */
  lemma MetaLayout(ms: YAMLMetaSerializer, magic: seq<byte>, version: uint64,
                   makeAbsolute: seq<byte> -> seq<byte>)
    requires ResolvesNonEmpty(ms.externalFilename, makeAbsolute)
    ensures var out := Emit(ms, magic, version, makeAbsolute);
      && out[..|magic|] == magic
      && out[|magic|] == 0
      && (forall i :: 0 <= i < 8 ==> out[|magic| + 1 + i] as nat == (version as nat / Pow256(i)) % 256)
      && Read64le(out[|magic| + 1..|magic| + 9]) == version
      && (forall i :: |magic| + 9 <= i < |magic| + 17 ==> out[i] == 0)
  {
    var out := Emit(ms, magic, version, makeAbsolute);
    var fixed := FixedPart(magic, version);
    assert out[..|magic|] == fixed[..|magic|];
    assert out[|magic|] == fixed[|magic|];
    assert out[|magic| + 1..|magic| + 9] == fixed[|magic| + 1..|magic| + 9];
    forall i | 0 <= i < 8
      ensures out[|magic| + 1 + i] == Write64le(version)[i]
    {
      assert out[|magic| + 1 + i] == out[|magic| + 1..|magic| + 9][i];
    }
    Read64leWrite64le(version);
    forall i | |magic| + 9 <= i < |magic| + 17
      ensures out[i] == 0
    {
      assert out[i] == fixed[i] == fixed[|magic| + 9..][i - |magic| - 9];
    }
  }

  /** Reads a meta header that starts with `magic`. */
  function ParseMeta(bytes: seq<byte>, magic: seq<byte>): Option<MetaHeader>
  {
    var fixedEnd := |magic| + 1 + FixedFieldsSize;
    if |bytes| < fixedEnd || bytes[..|magic|] != magic || bytes[|magic|] != 0 then None
    else
      var version := Read64le(bytes[|magic| + 1..|magic| + 9]);
      var strTabSize := Read64le(bytes[|magic| + 9..fixedEnd]);
      var rest := bytes[fixedEnd..];
      if |rest| == 0 then Some(MetaHeader(version, strTabSize, None))
      else if |rest| >= 2 && rest[|rest| - 1] == 0 then
        Some(MetaHeader(version, strTabSize, Some(rest[..|rest| - 1])))
      else None
  }

  /** Reading the emitted header gives back the version, a zero string-table
      size and, exactly when a file name was given, its absolute path. */
  lemma MetaRoundTrip(ms: YAMLMetaSerializer, magic: seq<byte>, version: uint64,
                      makeAbsolute: seq<byte> -> seq<byte>)
    requires ResolvesNonEmpty(ms.externalFilename, makeAbsolute)
    ensures ParseMeta(Emit(ms, magic, version, makeAbsolute), magic)
            == Some(MetaHeader(version, 0, ms.externalFilename.Map(makeAbsolute)))
  {
    var out := Emit(ms, magic, version, makeAbsolute);
    var fixedEnd := |magic| + 1 + FixedFieldsSize;
    var fixed := FixedPart(magic, version);
    assert out[..|magic|] == fixed[..|magic|];
    assert out[|magic|] == fixed[|magic|];
    assert out[|magic| + 1..|magic| + 9] == Write64le(version);
    assert out[|magic| + 9..fixedEnd] == Write64le(0) by {
      Write64leZero();
      assert out[|magic| + 9..fixedEnd] == fixed[|magic| + 9..];
    }
    Read64leWrite64le(version);
    Read64leWrite64le(0);
    if ms.externalFilename.Some? {
      var path := makeAbsolute(ms.externalFilename.value);
      var rest := out[fixedEnd..];
      assert rest == path + [0];
      assert rest[..|rest| - 1] == path;
    }
  }

  /** Without an external file the header is exactly magic, NUL, version and
      string-table size; with one, it ends with the NUL-terminated non-empty
      absolute path. */
  lemma MetaLength(ms: YAMLMetaSerializer, magic: seq<byte>, version: uint64,
                   makeAbsolute: seq<byte> -> seq<byte>)
    requires ResolvesNonEmpty(ms.externalFilename, makeAbsolute)
    ensures ms.externalFilename.None? ==> |Emit(ms, magic, version, makeAbsolute)| == |magic| + 1 + 8 + 8
    ensures ms.externalFilename.Some? ==>
      |Emit(ms, magic, version, makeAbsolute)|
        == |magic| + 1 + 8 + 8 + |makeAbsolute(ms.externalFilename.value)| + 1
  {
    var out := Emit(ms, magic, version, makeAbsolute);
    if ms.externalFilename.Some? {
      assert |out[|magic| + 1 + FixedFieldsSize..]| == |makeAbsolute(ms.externalFilename.value)| + 1;
    }
  }
}
