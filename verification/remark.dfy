/** The remark data model handed to the serializer: read-only values, no behaviour. */
module Remarks {
  import opened Ints
  import opened Optional

  /** The remark kind. `Unknown` is the default-constructed value of the C++
      enumeration; it has no tag, so it stands for every discriminant the
      serializer's six-way test does not recognise. */
  datatype RemarkType =
    | Unknown
    | Passed
    | Missed
    | Analysis
    | AnalysisFPCommute
    | AnalysisAliasing
    | Failure

  /** A source position: file path, 1-based line and column. */
  datatype RemarkLocation = RemarkLocation(sourceFilePath: string, sourceLine: uint32, sourceColumn: uint32)

  /** One key/value piece of a remark's message, optionally with its own location. */
  datatype Argument = Argument(key: string, val: string, loc: Option<RemarkLocation>)

  /** A remark produced by an optimisation pass. Arguments are kept in message order. */
  datatype Remark = Remark(
    remarkType: RemarkType,
    passName: string,
    remarkName: string,
    functionName: string,
    loc: Option<RemarkLocation>,
    hotness: Option<uint64>,
    args: seq<Argument>)

  /** The argument keys contain no NUL character, so handing a key to the
      YAML engine as a C string keeps all of it. */
  predicate NulFreeKeys(args: seq<Argument>)
  {
    forall i :: 0 <= i < |args| ==> '\0' !in args[i].key
  }
}
