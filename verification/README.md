# YAML remark serializer

This project models LLVM's YAML optimization-remark serializer,
`llvm/lib/Remarks/YAMLRemarkSerializer.cpp`. It proves properties of the
model in Dafny. The serializer has two halves:

- **Remark documents.** `YAMLRemarkSerializer::emit` writes each remark as one
  YAML document. The document is a block mapping that carries a tag naming the
  remark kind (`!Passed`, `!Missed`, `!Analysis`, `!AnalysisFPCommute`,
  `!AnalysisAliasing`, `!Failure`). Its fields come in a fixed order: `Pass`,
  `Name`, optional `DebugLoc`, `Function`, optional `Hotness`, and optional
  `Args`. Each argument is a block mapping keyed by the argument's key. A value
  holding two or more newlines is written as a block literal. An argument may
  also carry its own `DebugLoc`, a flow mapping `{ File, Line, Column }`.
- **Meta header.** `YAMLMetaSerializer::emit` writes the binary header. It
  holds the magic string and a NUL byte, then the format version as 8
  little-endian bytes, then a string-table size that is always zero (8 bytes).
  When the remarks are in a separate file, the header ends with that file's
  absolute path and a NUL byte.

The YAML output is modelled as a tree of nodes (`YamlNode.Node`). The model
does not render text. Every mapping the serializer produces has a decoder in
the model. The round-trip lemmas use these decoders as the inverse of the
encoding.

Modules:

| module | file | contents |
|---|---|---|
| `Ints` | ints.dfy | `byte`, `uint32`, `uint64` |
| `Optional` | optional.dfy | `Option` |
| `Remarks` | remark.dfy | remark kinds, `RemarkLocation`, `Argument`, `Remark` |
| `YamlNode` | yaml_node.dfy | the YAML node tree |
| `YamlRemarkSchema` | yaml_schema.dfy | the mapping traits of lines 24-127, with their decoders |
| `Endian` | endian.dfy | `write64le` and its inverse |
| `YamlMeta` | yaml_meta.dfy | `emitMagic`, `emitVersion`, `emitExternalFile` and `YAMLMetaSerializer::emit` |
| `YamlSerializer` | yaml_serializer.dfy | the serializer object: `emit` and `metaSerializer` |

## Model

All source paths are `llvm/lib/Remarks/YAMLRemarkSerializer.cpp`.

| member | source | states |
|---|---|---|
| YamlRemarkSchema.FirstMatchingTag | llvm/lib/Remarks/YAMLRemarkSerializer.cpp:43-58 | The if/else chain of `mapTag` tests gives no tag exactly when no test's kind is the remark's kind. Otherwise it gives the tag of the first test whose kind matches. |
| YamlRemarkSchema.TagChain | llvm/lib/Remarks/YAMLRemarkSerializer.cpp:43-58 | The `mapTag` chain itself: `FirstMatchingTag` over the six tests in source order. It has no contract of its own. `FirstMatchingTag`'s contract describes it, and `ExactlyOneTag` proves it equal to `TagOf`. |
| YamlRemarkSchema.TagOf | llvm/lib/Remarks/YAMLRemarkSerializer.cpp:43-58 | A remark gets a tag exactly when its kind is one of the six. Any other kind reaches the `llvm_unreachable` branch. |
| YamlRemarkSchema.TagTestsDisjoint | llvm/lib/Remarks/YAMLRemarkSerializer.cpp:43-56 | No kind passes two of the six tag tests. |
| YamlRemarkSchema.ExactlyOneTag | llvm/lib/Remarks/YAMLRemarkSerializer.cpp:43-58 | A kind passes exactly one tag test if and only if it is one of the six. The sequential chain picks the same tag as the exhaustive match. |
| YamlRemarkSchema.TagIdentifiesKind | llvm/lib/Remarks/YAMLRemarkSerializer.cpp:43-56 | The six tags are distinct, so looking the written tag up among the tests gives back the remark's kind. |
| YamlRemarkSchema.LocationNode | llvm/lib/Remarks/YAMLRemarkSerializer.cpp:65-80 | A location is an untagged flow mapping whose keys are exactly `File`, `Line`, `Column`, in that order. |
| YamlRemarkSchema.LocationRoundTrip | llvm/lib/Remarks/YAMLRemarkSerializer.cpp:69-76 | Reading the location mapping back gives the same path, line and column. |
| YamlRemarkSchema.CountNewlines | llvm/lib/Remarks/YAMLRemarkSerializer.cpp:119 | `StringRef::count('\n')` equals the number of newline characters in the value, counted as a multiset. |
| YamlRemarkSchema.ValueNode | llvm/lib/Remarks/YAMLRemarkSerializer.cpp:119-124 | An argument value is a block literal if and only if it holds at least two newlines, and an ordinary scalar otherwise. Either way the text is the value, unchanged. |
| YamlRemarkSchema.CStringKey | llvm/lib/Remarks/YAMLRemarkSerializer.cpp:121-123 | The key handed over as `Key.data()` is the longest NUL-free prefix of the key, and the whole key when the key has no NUL. |
| YamlRemarkSchema.WrittenArgument | llvm/lib/Remarks/YAMLRemarkSerializer.cpp:121-125 | The argument the engine actually writes: the key up to its first NUL, the value and the location unchanged. It is the argument itself when the key has no NUL. |
| YamlRemarkSchema.ArgumentNode | llvm/lib/Remarks/YAMLRemarkSerializer.cpp:115-127 | An argument is an untagged block mapping. Its first entry is the key paired with the value node. A second entry, `DebugLoc` with the location mapping, is present exactly when the argument has a location. |
| YamlRemarkSchema.ArgumentRoundTrip | llvm/lib/Remarks/YAMLRemarkSerializer.cpp:115-127 | For every argument, reading the mapping back gives the written argument: the key up to its first NUL, the value and the location. When the key has no NUL this is the argument itself. |
| YamlRemarkSchema.ArgumentNodes | llvm/lib/Remarks/YAMLRemarkSerializer.cpp:105-111 | The `Args` sequence has one item per argument. |
| YamlRemarkSchema.ArgumentNodesAt | llvm/lib/Remarks/YAMLRemarkSerializer.cpp:105-111 | Item i of the `Args` sequence is the mapping of argument i, so the input order is kept. |
| YamlRemarkSchema.WrittenArguments | llvm/lib/Remarks/YAMLRemarkSerializer.cpp:105-123 | The arguments as written, in input order, one per argument. The list is unchanged when no key has a NUL. |
| YamlRemarkSchema.ArgumentsRoundTrip | llvm/lib/Remarks/YAMLRemarkSerializer.cpp:105-111 | For every argument list, reading the `Args` sequence back gives the written arguments in order. When no key has a NUL this is the list itself. |
| YamlRemarkSchema.LocationPart | llvm/lib/Remarks/YAMLRemarkSerializer.cpp:30 | The optional `DebugLoc` entry. It has no contract of its own: `FieldOrderIsFixed` states when it is present and `LocationPartRoundTrip` states its read-back. |
| YamlRemarkSchema.HotnessPart | llvm/lib/Remarks/YAMLRemarkSerializer.cpp:32 | The optional `Hotness` entry. It has no contract of its own: `FieldOrderIsFixed` states when it is present and `HotnessPartRoundTrip` states its read-back. |
| YamlRemarkSchema.ArgumentsPart | llvm/lib/Remarks/YAMLRemarkSerializer.cpp:33 | The optional `Args` entry, absent for an empty list. It has no contract of its own: `FieldOrderIsFixed` states when it is present and `ArgumentsPartRoundTrip` states its read-back. |
| YamlRemarkSchema.RemarkHeader | llvm/lib/Remarks/YAMLRemarkSerializer.cpp:24-34 | `mapRemarkHeader`: the remark's entries. It has no contract of its own. `RemarkHeaderKeys` and `FieldOrderIsFixed` state its keys and their order, and `RemarkHeaderRoundTrip` states that the entries read back as the remark's fields. |
| YamlRemarkSchema.RemarkNode | llvm/lib/Remarks/YAMLRemarkSerializer.cpp:39-62 | A remark of one of the six kinds is a block mapping that carries its kind's tag. |
| YamlRemarkSchema.RemarkHeaderKeys | llvm/lib/Remarks/YAMLRemarkSerializer.cpp:24-34 | The keys of `mapRemarkHeader`'s entries are `Pass`, `Name`, `DebugLoc` when a location is set, `Function`, `Hotness` when set, and `Args` when there are arguments. |
| YamlRemarkSchema.FieldOrderIsFixed | llvm/lib/Remarks/YAMLRemarkSerializer.cpp:24-34 | The remark mapping's keys are the fixed field order with the absent fields filtered out. `Pass`, `Name` and `Function` are always present. `DebugLoc` and `Hotness` are present exactly when set. `Args` is present exactly when there are arguments. |
| YamlRemarkSchema.LocationPartRoundTrip | llvm/lib/Remarks/YAMLRemarkSerializer.cpp:30 | The optional `DebugLoc` entry reads back as the remark's location, or as none when it is absent, and leaves the following `Function` entry in place. |
| YamlRemarkSchema.HotnessPartRoundTrip | llvm/lib/Remarks/YAMLRemarkSerializer.cpp:32 | The optional `Hotness` entry reads back as the remark's hotness, or as none when it is absent. |
| YamlRemarkSchema.ArgumentsPartRoundTrip | llvm/lib/Remarks/YAMLRemarkSerializer.cpp:33 | The optional `Args` entry reads back as the written argument list. An absent entry reads as no arguments. |
| YamlRemarkSchema.WrittenRemark | llvm/lib/Remarks/YAMLRemarkSerializer.cpp:39-62 | The remark the engine actually writes: every field unchanged except the argument keys, each cut at its first NUL. It is the remark itself when no key has a NUL. |
| YamlRemarkSchema.RemarkHeaderRoundTrip | llvm/lib/Remarks/YAMLRemarkSerializer.cpp:24-34 | For every remark, reading the header entries back in the fixed order gives every field of the written remark. |
| YamlRemarkSchema.RemarkRoundTrip | llvm/lib/Remarks/YAMLRemarkSerializer.cpp:39-62 | For every remark of the six kinds, reading its document back gives the written remark. The tag gives back the kind and the entries give back the fields. When no argument key has a NUL, this is the remark itself. |
| Endian.FromLEToLE | llvm/lib/Remarks/YAMLRemarkSerializer.cpp:163 | Decoding the n-byte little-endian encoding of a value below 256^n gives the value. |
| Endian.ToLEFromLE | llvm/lib/Remarks/YAMLRemarkSerializer.cpp:163 | Re-encoding the value of an n-byte string in n bytes gives the same bytes. |
| Endian.ToLEDigit | llvm/lib/Remarks/YAMLRemarkSerializer.cpp:163 | Byte i of the little-endian encoding is base-256 digit i of the value. |
| Endian.Write64le | llvm/lib/Remarks/YAMLRemarkSerializer.cpp:162-164 | `write64le` gives 8 bytes. Byte i is `(v / 256^i) % 256`: least significant first. |
| Endian.Read64leWrite64le | llvm/lib/Remarks/YAMLRemarkSerializer.cpp:163 | Reading back the 8 bytes written for a 64-bit value gives the value. |
| Endian.Write64leRead64le | llvm/lib/Remarks/YAMLRemarkSerializer.cpp:163 | Every 8-byte string is the encoding of the value read from it. |
| Endian.Write64leZero | llvm/lib/Remarks/YAMLRemarkSerializer.cpp:184-186 | The string-table size 0 is written as eight zero bytes. |
| YamlMeta.EmitMagic | llvm/lib/Remarks/YAMLRemarkSerializer.cpp:153-158 | The magic string followed by one NUL byte. |
| YamlMeta.EmitVersion | llvm/lib/Remarks/YAMLRemarkSerializer.cpp:160-165 | Eight bytes that read back as the version. |
| YamlMeta.EmitExternalFile | llvm/lib/Remarks/YAMLRemarkSerializer.cpp:167-174 | The absolute path followed by one NUL byte, with the non-empty path asserted by the source as a precondition. |
| YamlMeta.FixedPart | llvm/lib/Remarks/YAMLRemarkSerializer.cpp:176-188 | Magic, NUL, the version's `write64le` bytes, then eight zero bytes: `|magic| + 17` bytes in all. |
| YamlMeta.Emit | llvm/lib/Remarks/YAMLRemarkSerializer.cpp:176-191 | The header starts with the fixed part. It ends there exactly when no external file is given. Otherwise the rest is the file's absolute path and a NUL byte. |
| YamlMeta.MetaLayout | llvm/lib/Remarks/YAMLRemarkSerializer.cpp:176-188 | Byte by byte: the magic, a NUL, the version's base-256 digits least significant first (reading back as the version), then eight zero bytes. |
| YamlMeta.MetaRoundTrip | llvm/lib/Remarks/YAMLRemarkSerializer.cpp:176-191 | Parsing the header gives the version, a zero string-table size, and the absolute external path exactly when a file name was given. |
| YamlMeta.MetaLength | llvm/lib/Remarks/YAMLRemarkSerializer.cpp:176-191 | The header is `|magic| + 17` bytes without an external file. With one it is `|magic| + 17 + |path| + 1`. |
| YamlSerializer.Emit | llvm/lib/Remarks/YAMLRemarkSerializer.cpp:141-146 | `emit` appends exactly one document, the remark's tagged mapping. It keeps the mode and every document written before. |
| YamlSerializer.EmitReadsBack | llvm/lib/Remarks/YAMLRemarkSerializer.cpp:141-146 | The document `emit` appends reads back as the written remark, and as the remark itself when no argument key has a NUL. |
| YamlSerializer.EmitAllAppends | llvm/lib/Remarks/YAMLRemarkSerializer.cpp:141-146 | Emitting a run of remarks appends their documents in call order after the existing ones, and changes nothing else. |
| YamlSerializer.EmitAllInOrder | llvm/lib/Remarks/YAMLRemarkSerializer.cpp:141-146 | After a run of `emit` calls, the stream keeps the earlier documents. It holds one new document per remark, and document i reads back as written remark i, which is remark i itself when its keys have no NUL. |
| YamlSerializer.MetaSerializer | llvm/lib/Remarks/YAMLRemarkSerializer.cpp:148-151 | `metaSerializer`: a meta serializer bound to the given file name. It has no contract of its own: `MetaSerializerRecordsExternalFile` states what its header records. |
| YamlSerializer.MetaSerializerRecordsExternalFile | llvm/lib/Remarks/YAMLRemarkSerializer.cpp:148-151 | The meta serializer handed out for a file name writes a header that records that file's absolute path, or no path when none is given, whatever the serializer has written. |

## Left out

- YAML text rendering: quoting, indentation, the `---`/`...` document markers, the `|` block indicator and scalar escaping. These belong to the YAML engine in `llvm/Support/YAMLTraits.h`, which is not part of this model. Documents are node trees.
- Two engine behaviours are taken as given. `mapTag(tag, true)` writes the tag. `mapOptional` leaves out an unset optional and an empty sequence. They decide when `DebugLoc`, `Hotness` and `Args` appear.
- The input direction: the `io.outputting()` asserts (lines 41, 67, 108, 117) and `BlockScalarTraits<StringBlockVal>::input` (lines 94-96). The serializer only writes.
- `raw_ostream` and its write errors. The meta header is a byte sequence. The remark stream is the list of documents written so far.
- The string table stored by the constructor (lines 134-139). YAML emission never consults it, so a new serializer is `YAMLRemarkSerializer(mode, [])`. The serializer mode is kept but, as in the source, does not change what `emit` writes.
- The `const_cast`s of lines 110 and 144. They only drop `const` for the engine's sake.
- `remarks::Magic`, `remarks::CurrentRemarkVersion` and `sys::fs::make_absolute` are parameters. Their definitions and the file system are not part of this model.
- The remark kinds come from `llvm/Remarks/Remark.h`, which is not part of this model. The kind type includes `Unknown`, that header's default kind, which is the value that reaches `llvm_unreachable`.
- Source line and column are `unsigned` and are modelled as 32-bit. Hotness is a 64-bit unsigned integer.
- YamlRemarkSchema.RemarkNode: requires one of the six kinds. The source aborts through `llvm_unreachable` for any other kind, and the model does not represent the abort.
- YamlSerializer.Emit: requires one of the six kinds, for the same reason.
- YamlMeta.EmitExternalFile: requires a non-empty absolute path. The source asserts this at line 171, and the model does not represent a failed assert.
- `Key.data()` is not guaranteed to be NUL-terminated, because a `StringRef` need not be. The model assumes the memory after the key holds a NUL, so it reads the key up to its own end or its first NUL.
- Non-empty pass, remark and function names: the serializer writes whatever strings it is given, empty ones included, and so does the model.
- Remark strings are byte strings: `StringRef` pass, remark and function names, argument keys and values, and source file paths. The model uses Dafny `string`, a sequence of Unicode characters, so a name or value that is not valid UTF-8 cannot be represented. The two byte-level operations still agree with the model on every valid UTF-8 string. `count('\n')` and the cut of `Key.data()` at byte 0 only look at bytes below 0x80, and in UTF-8 such a byte is always a whole character, never part of a multi-byte one. So counting newline characters and cutting at the NUL character give the same results. The meta header's path is a byte sequence, because `emitExternalFile` writes it as raw bytes.
