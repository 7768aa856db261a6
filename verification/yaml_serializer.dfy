/** The YAML remark serializer: writes each remark it is given as one YAML
    document on its stream, and hands out a meta serializer for the header. */
module YamlSerializer {
  import opened Ints
  import opened Optional
  import opened Remarks
  import opened YamlNode
  import opened YamlRemarkSchema
  import opened YamlMeta

  /** Whether the remarks are kept with the compiled artifact or in a
      separate file referenced from the meta header. */
  datatype SerializerMode = Separate | Standalone

  /** A serializer: its mode and the documents its stream holds so far, oldest
      first. A new serializer is `YAMLRemarkSerializer(mode, [])`; the string
      table it may be given is never consulted by YAML emission. */
  datatype YAMLRemarkSerializer = YAMLRemarkSerializer(mode: SerializerMode, documents: seq<Node>)

  /** `YAMLRemarkSerializer::emit`: appends the remark's document to the
      stream, leaving everything written before untouched. */
  function Emit(s: YAMLRemarkSerializer, r: Remark): (s': YAMLRemarkSerializer)
    requires r.remarkType != Unknown
    ensures s'.mode == s.mode
    ensures |s'.documents| == |s.documents| + 1
    ensures s'.documents[..|s.documents|] == s.documents
    ensures s'.documents[|s.documents|].Mapping? && s'.documents[|s.documents|].tag == TagOf(r.remarkType)
  {
    s.(documents := s.documents + [RemarkNode(r)])
  }

  /** The document `emit` appends reads back as the remark as written, which
      is the remark itself when its argument keys have no NUL. */
  lemma EmitReadsBack(s: YAMLRemarkSerializer, r: Remark)
    requires r.remarkType != Unknown
    ensures DecodeRemark(Emit(s, r).documents[|s.documents|]) == Some(WrittenRemark(r))
    ensures NulFreeKeys(r.args) ==> DecodeRemark(Emit(s, r).documents[|s.documents|]) == Some(r)
  {
    RemarkRoundTrip(r);
  }

  /** Every remark in `rs` can be emitted. */
  predicate AllTagged(rs: seq<Remark>)
  {
    forall i :: 0 <= i < |rs| ==> rs[i].remarkType != Unknown
  }

  /** Emits the remarks of `rs` one after the other. */
  function EmitAll(s: YAMLRemarkSerializer, rs: seq<Remark>): YAMLRemarkSerializer
    requires AllTagged(rs)
    decreases |rs|
  {
    if |rs| == 0 then s else EmitAll(Emit(s, rs[0]), rs[1..])
  }

  /** The documents of `rs`, in order. */
  function RemarkNodes(rs: seq<Remark>): (ns: seq<Node>)
    requires AllTagged(rs)
    ensures |ns| == |rs|
  {
    if |rs| == 0 then [] else [RemarkNode(rs[0])] + RemarkNodes(rs[1..])
  }

  /** The i-th document of a run is the mapping of the i-th remark. */
  lemma {:induction false} RemarkNodesAt(rs: seq<Remark>, i: nat)
    requires AllTagged(rs) && i < |rs|
    ensures RemarkNodes(rs)[i] == RemarkNode(rs[i])
  {
    if i > 0 {
      var tail := rs[1..];
      assert AllTagged(tail);
      RemarkNodesAt(tail, i - 1);
      assert RemarkNodes(rs)[i] == RemarkNodes(tail)[i - 1];
      assert tail[i - 1] == rs[i];
    }
  }

  lemma ConcatAssoc<T>(a: seq<T>, b: seq<T>, c: seq<T>)
    ensures a + (b + c) == (a + b) + c
  {
  }

  /** Emitting a run of remarks keeps the mode and appends the remarks'
      documents, in order, after the documents already written. */
  lemma {:induction false} EmitAllAppends(s: YAMLRemarkSerializer, rs: seq<Remark>)
    requires AllTagged(rs)
    ensures EmitAll(s, rs) == YAMLRemarkSerializer(s.mode, s.documents + RemarkNodes(rs))
    decreases |rs|
  {
    if |rs| > 0 {
      var s1, tail := Emit(s, rs[0]), rs[1..];
      assert AllTagged(tail);
      EmitAllAppends(s1, tail);
      var first := [RemarkNode(rs[0])];
      assert s1.documents == s.documents + first;
      assert RemarkNodes(rs) == first + RemarkNodes(tail);
      ConcatAssoc(s.documents, first, RemarkNodes(tail));
    }
  }

  /** Remarks reach the stream in the order `emit` is called, one document
      each, after the documents already written; each document reads back as
      its remark as written, and as the remark itself when its argument keys
      have no NUL. */
  lemma EmitAllInOrder(s: YAMLRemarkSerializer, rs: seq<Remark>)
    requires AllTagged(rs)
    ensures EmitAll(s, rs).mode == s.mode
    ensures |EmitAll(s, rs).documents| == |s.documents| + |rs|
    ensures EmitAll(s, rs).documents[..|s.documents|] == s.documents
    ensures forall i :: 0 <= i < |rs| ==>
      DecodeRemark(EmitAll(s, rs).documents[|s.documents| + i]) == Some(WrittenRemark(rs[i]))
    ensures forall i :: 0 <= i < |rs| && NulFreeKeys(rs[i].args) ==>
      DecodeRemark(EmitAll(s, rs).documents[|s.documents| + i]) == Some(rs[i])
  {
    EmitAllAppends(s, rs);
    var out := EmitAll(s, rs).documents;
    assert out[..|s.documents|] == s.documents;
    forall i | 0 <= i < |rs|
      ensures DecodeRemark(out[|s.documents| + i]) == Some(WrittenRemark(rs[i]))
      ensures NulFreeKeys(rs[i].args) ==> DecodeRemark(out[|s.documents| + i]) == Some(rs[i])
    {
      assert out[|s.documents| + i] == RemarkNodes(rs)[i];
      RemarkNodesAt(rs, i);
      RemarkRoundTrip(rs[i]);
    }
  }

  /** `YAMLRemarkSerializer::metaSerializer`: a meta serializer bound to the
      given external file name. */
  function MetaSerializer(s: YAMLRemarkSerializer, externalFilename: Option<seq<byte>>): YAMLMetaSerializer
  {
    YAMLMetaSerializer(externalFilename)
  }

  /** The header of the meta serializer handed out for `externalFilename`
      records that file's absolute path, and records no path when none is
      given, whatever remarks the serializer has written. */
  lemma MetaSerializerRecordsExternalFile(s: YAMLRemarkSerializer, externalFilename: Option<seq<byte>>,
                                          magic: seq<byte>, version: uint64,
                                          makeAbsolute: seq<byte> -> seq<byte>)
    requires ResolvesNonEmpty(externalFilename, makeAbsolute)
    ensures var header := YamlMeta.Emit(MetaSerializer(s, externalFilename), magic, version, makeAbsolute);
      ParseMeta(header, magic) == Some(MetaHeader(version, 0, externalFilename.Map(makeAbsolute)))
  {
    MetaRoundTrip(MetaSerializer(s, externalFilename), magic, version, makeAbsolute);
  }
}
