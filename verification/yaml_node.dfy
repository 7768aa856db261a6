/** The abstract structure the remark serializer hands to the YAML engine:
    one node tree per document. Rendering the tree as text (quoting, escaping,
    indentation, block-scalar layout) is the engine's business and is not modelled. */
module YamlNode {
  import opened Optional

  datatype Node =
    /** An ordinary scalar; the engine picks plain or quoted style. */
    | Scalar(text: string)
    /** A block-literal scalar (`|`), which keeps embedded newlines verbatim. */
    | BlockLiteral(text: string)
    /** An unsigned integer scalar. */
    | Unsigned(value: nat)
    /** A block sequence. */
    | Sequence(items: seq<Node>)
    /** A mapping with an optional tag, in flow (`{ ... }`) or block layout,
        with its entries in emission order. */
    | Mapping(tag: Option<string>, flow: bool, entries: seq<Entry>)

  datatype Entry = Entry(key: string, value: Node)

  /** The keys of a mapping, in order. */
  function Keys(entries: seq<Entry>): (keys: seq<string>)
    ensures |keys| == |entries|
    ensures forall i :: 0 <= i < |entries| ==> keys[i] == entries[i].key
  {
    seq(|entries|, i requires 0 <= i < |entries| => entries[i].key)
  }
}
