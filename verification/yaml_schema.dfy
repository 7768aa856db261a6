/** The schema adapter: how a remark, a location and an argument are mapped to
    YAML nodes when the serializer is outputting (the `MappingTraits`
    specialisations of YAMLRemarkSerializer.cpp), together with a decoder
    for each mapping that serves as its inverse. */
module YamlRemarkSchema {
  import opened Ints
  import opened Optional
  import opened Remarks
  import opened YamlNode

  // ---------------------------------------------------------------------------
  // Tag selection
  // ---------------------------------------------------------------------------

  /** The six tag tests, in the order the remark mapping tries them. */
  const TagTests: seq<(string, RemarkType)> := [
    ("!Passed", Passed),
    ("!Missed", Missed),
    ("!Analysis", Analysis),
    ("!AnalysisFPCommute", AnalysisFPCommute),
    ("!AnalysisAliasing", AnalysisAliasing),
    ("!Failure", Failure)
  ]

  /** The chain of `mapTag` tests: the tag of the first test whose kind is
      `kind`, or None when every test fails (the unreachable branch). */
  function FirstMatchingTag(tests: seq<(string, RemarkType)>, kind: RemarkType): (tag: Option<string>)
    ensures tag.None? <==> forall i :: 0 <= i < |tests| ==> tests[i].1 != kind
    ensures tag.Some? ==>
      exists i :: 0 <= i < |tests| && tests[i] == (tag.value, kind)
                  && forall j :: 0 <= j < i ==> tests[j].1 != kind
  {
    if |tests| == 0 then None
    else if tests[0].1 == kind then Some(tests[0].0)
    else
      var tag := FirstMatchingTag(tests[1..], kind);
      assert forall i :: 1 <= i < |tests| ==> tests[i] == tests[1..][i - 1];
      tag
  }

  /** The tag chosen by running the chain of tests over the six tag tests. */
  function TagChain(kind: RemarkType): Option<string>
  {
    FirstMatchingTag(TagTests, kind)
  }

  /** The tag of each kind, as one exhaustive match; None is the
      "Unknown remark type" branch. */
  function TagOf(kind: RemarkType): (tag: Option<string>)
    ensures tag.Some? <==> kind != Unknown
  {
    match kind
    case Unknown => None
    case Passed => Some("!Passed")
    case Missed => Some("!Missed")
    case Analysis => Some("!Analysis")
    case AnalysisFPCommute => Some("!AnalysisFPCommute")
    case AnalysisAliasing => Some("!AnalysisAliasing")
    case Failure => Some("!Failure")
  }

  /** The tag tests are disjoint: no kind passes two of them. */
  lemma TagTestsDisjoint()
    ensures forall i, j :: 0 <= i < j < |TagTests| ==> TagTests[i].1 != TagTests[j].1
  {
  }

  /** Every one of the six kinds passes exactly one of the six tag tests, so
      the chain of tests picks the kind's own tag; only a kind outside the six
      falls through every test to the unreachable branch. */
  lemma ExactlyOneTag(kind: RemarkType)
    ensures kind != Unknown <==>
      exists i :: 0 <= i < |TagTests| && TagTests[i].1 == kind
                  && forall j :: 0 <= j < |TagTests| && j != i ==> TagTests[j].1 != kind
    ensures TagChain(kind) == TagOf(kind)
  {
    TagTestsDisjoint();
    var i := match kind
      case Unknown => |TagTests|
      case Passed => 0
      case Missed => 1
      case Analysis => 2
      case AnalysisFPCommute => 3
      case AnalysisAliasing => 4
      case Failure => 5;
    if kind == Unknown {
      assert forall j :: 0 <= j < |TagTests| ==> TagTests[j].1 != kind;
    } else {
      assert TagTests[i] == (TagOf(kind).value, kind);
      assert forall j :: 0 <= j < |TagTests| && j != i ==> TagTests[j].1 != kind;
    }
  }

  /** Reverse lookup of the tag tests: the kind whose test writes `tag`. */
  function KindOfTag(tests: seq<(string, RemarkType)>, tag: string): Option<RemarkType>
  {
    if |tests| == 0 then None
    else if tests[0].0 == tag then Some(tests[0].1)
    else KindOfTag(tests[1..], tag)
  }

  /** Distinct kinds get distinct tags: reading the tag back gives the kind. */
  lemma TagIdentifiesKind(kind: RemarkType)
    requires kind != Unknown
    ensures KindOfTag(TagTests, TagOf(kind).value) == Some(kind)
  {
  }

  // ---------------------------------------------------------------------------
  // Locations
  // ---------------------------------------------------------------------------

  /** A location is a flow mapping `{ File, Line, Column }`. */
  function LocationNode(loc: RemarkLocation): (n: Node)
    ensures n.Mapping? && n.flow && n.tag.None?
    ensures Keys(n.entries) == ["File", "Line", "Column"]
  {
    Mapping(None, true, [
      Entry("File", Scalar(loc.sourceFilePath)),
      Entry("Line", Unsigned(loc.sourceLine as nat)),
      Entry("Column", Unsigned(loc.sourceColumn as nat))
    ])
  }

  /** Reading a location mapping back gives the path, line and column
      unchanged. */
  lemma LocationRoundTrip(loc: RemarkLocation)
    ensures DecodeLocation(LocationNode(loc)) == Some(loc)
  {
    var n := LocationNode(loc);
    assert n.entries[1].value == Unsigned(loc.sourceLine as nat);
    assert n.entries[2].value == Unsigned(loc.sourceColumn as nat);
  }

  /** Reads an unsigned 32-bit scalar. */
  function DecodeUInt32(n: Node): Option<uint32>
  {
    if n.Unsigned? && n.value < 0x1_0000_0000 then Some(n.value as uint32) else None
  }

  /** Reads a location mapping back. */
  function DecodeLocation(n: Node): Option<RemarkLocation>
  {
    if n.Mapping? && n.tag.None? && n.flow && |n.entries| == 3
       && n.entries[0].key == "File" && n.entries[0].value.Scalar?
       && n.entries[1].key == "Line" && DecodeUInt32(n.entries[1].value).Some?
       && n.entries[2].key == "Column" && DecodeUInt32(n.entries[2].value).Some?
    then Some(RemarkLocation(n.entries[0].value.text,
                             DecodeUInt32(n.entries[1].value).value,
                             DecodeUInt32(n.entries[2].value).value))
    else None
  }

  // ---------------------------------------------------------------------------
  // Arguments
  // ---------------------------------------------------------------------------

  /** The number of newline characters in `s`. */
  function CountNewlines(s: string): (n: nat)
    ensures n == multiset(s)['\n']
  {
    if |s| == 0 then 0
    else
      assert s == [s[0]] + s[1..];
      (if s[0] == '\n' then 1 else 0) + CountNewlines(s[1..])
  }

  /** The value of an argument: a block literal when it holds more than one
      newline, an ordinary scalar otherwise; either way the text is the value. */
  function ValueNode(val: string): (n: Node)
    ensures n.Scalar? || n.BlockLiteral?
    ensures n.text == val
    ensures n.BlockLiteral? <==> multiset(val)['\n'] >= 2
  {
    if CountNewlines(val) > 1 then BlockLiteral(val) else Scalar(val)
  }

  /** The argument key as the YAML engine sees it: the key is passed as a C
      string, so it ends at the first NUL character. */
  function CStringKey(key: string): (k: string)
    ensures k <= key
    ensures '\0' !in k
    ensures |k| < |key| ==> key[|k|] == '\0'
    ensures '\0' !in key ==> k == key
  {
    if |key| == 0 || key[0] == '\0' then []
    else [key[0]] + CStringKey(key[1..])
  }

  /** An argument is a block mapping whose first entry is keyed by the
      argument's key and carries its value; a `DebugLoc` entry follows exactly
      when the argument has its own location. */
  function ArgumentNode(arg: Argument): (n: Node)
    ensures n.Mapping? && !n.flow && n.tag.None?
    ensures |n.entries| == if arg.loc.Some? then 2 else 1
    ensures n.entries[0].key == CStringKey(arg.key)
    ensures n.entries[0].value == ValueNode(arg.val)
    ensures arg.loc.Some? ==> n.entries[1] == Entry("DebugLoc", LocationNode(arg.loc.value))
  {
    var first := Entry(CStringKey(arg.key), ValueNode(arg.val));
    match arg.loc
    case None => Mapping(None, false, [first])
    case Some(loc) => Mapping(None, false, [first, Entry("DebugLoc", LocationNode(loc))])
  }

  /** Reads a scalar of either style. */
  function DecodeText(n: Node): Option<string>
  {
    if n.Scalar? || n.BlockLiteral? then Some(n.text) else None
  }

  /** Reads an argument mapping back. */
  function DecodeArgument(n: Node): Option<Argument>
  {
    if !(n.Mapping? && n.tag.None? && !n.flow && 1 <= |n.entries| <= 2) then None
    else if DecodeText(n.entries[0].value).None? then None
    else
      var key := n.entries[0].key;
      var val := DecodeText(n.entries[0].value).value;
      if |n.entries| == 1 then Some(Argument(key, val, None))
      else if n.entries[1].key == "DebugLoc" && DecodeLocation(n.entries[1].value).Some? then
        Some(Argument(key, val, DecodeLocation(n.entries[1].value)))
      else None
  }

  /** The argument as the engine writes it: its key cut at the first NUL,
      its value and location unchanged. */
  function WrittenArgument(arg: Argument): (w: Argument)
    ensures w.val == arg.val && w.loc == arg.loc
    ensures w.key <= arg.key && '\0' !in w.key
    ensures |w.key| < |arg.key| ==> arg.key[|w.key|] == '\0'
    ensures '\0' !in arg.key ==> w == arg
  {
    arg.(key := CStringKey(arg.key))
  }

  /** Reading an argument mapping back gives the argument as written: the key
      up to its first NUL, the value and the location. An argument whose key
      has no NUL comes back whole. */
  lemma ArgumentRoundTrip(arg: Argument)
    ensures DecodeArgument(ArgumentNode(arg)) == Some(WrittenArgument(arg))
    ensures '\0' !in arg.key ==> DecodeArgument(ArgumentNode(arg)) == Some(arg)
  {
    if arg.loc.Some? {
      LocationRoundTrip(arg.loc.value);
    }
  }

  /** The `Args` sequence: one argument mapping per argument, in input order. */
  function ArgumentNodes(args: seq<Argument>): (ns: seq<Node>)
    ensures |ns| == |args|
  {
    if |args| == 0 then []
    else [ArgumentNode(args[0])] + ArgumentNodes(args[1..])
  }

  /** The i-th item of the `Args` sequence is the mapping of the i-th argument. */
  lemma {:induction false} ArgumentNodesAt(args: seq<Argument>, i: nat)
    requires i < |args|
    ensures ArgumentNodes(args)[i] == ArgumentNode(args[i])
  {
    if i > 0 {
      var tail := args[1..];
      ArgumentNodesAt(tail, i - 1);
      assert ArgumentNodes(args)[i] == ArgumentNodes(tail)[i - 1];
      assert tail[i - 1] == args[i];
    }
  }

  /** Reads a sequence of argument mappings back. */
  function DecodeArguments(ns: seq<Node>): Option<seq<Argument>>
  {
    if |ns| == 0 then Some([])
    else
      match (DecodeArgument(ns[0]), DecodeArguments(ns[1..]))
      case (Some(a), Some(rest)) => Some([a] + rest)
      case _ => None
  }

  /** The arguments as the engine writes them, in order. */
  function WrittenArguments(args: seq<Argument>): (ws: seq<Argument>)
    ensures |ws| == |args|
    ensures forall i :: 0 <= i < |args| ==> ws[i] == WrittenArgument(args[i])
    ensures NulFreeKeys(args) ==> ws == args
  {
    seq(|args|, i requires 0 <= i < |args| => WrittenArgument(args[i]))
  }

  lemma WrittenArgumentsCons(args: seq<Argument>)
    requires |args| > 0
    ensures WrittenArguments(args) == [WrittenArgument(args[0])] + WrittenArguments(args[1..])
  {
    var ws, tail := WrittenArguments(args), WrittenArguments(args[1..]);
    forall i | 0 <= i < |ws| ensures ws[i] == ([WrittenArgument(args[0])] + tail)[i] {
      if i > 0 {
        assert args[1..][i - 1] == args[i];
      }
    }
  }

  /** Reading the `Args` sequence gives back the arguments as written, in
      order; when no key has a NUL, that is the argument list itself. */
  lemma {:induction false} ArgumentsRoundTrip(args: seq<Argument>)
    ensures DecodeArguments(ArgumentNodes(args)) == Some(WrittenArguments(args))
    ensures NulFreeKeys(args) ==> DecodeArguments(ArgumentNodes(args)) == Some(args)
  {
    if |args| > 0 {
      var first, rest := args[0], args[1..];
      var ns := ArgumentNodes(args);
      assert ns == [ArgumentNode(first)] + ArgumentNodes(rest);
      ArgumentRoundTrip(first);
      ArgumentsRoundTrip(rest);
      WrittenArgumentsCons(args);
    }
  }

  // ---------------------------------------------------------------------------
  // Remarks
  // ---------------------------------------------------------------------------

  /** The `DebugLoc` entry of a remark: present when the location is set. */
  function LocationPart(loc: Option<RemarkLocation>): seq<Entry>
  {
    match loc
    case Some(l) => [Entry("DebugLoc", LocationNode(l))]
    case None => []
  }

  /** The `Hotness` entry of a remark: present when the hotness is set. */
  function HotnessPart(hotness: Option<uint64>): seq<Entry>
  {
    match hotness
    case Some(h) => [Entry("Hotness", Unsigned(h as nat))]
    case None => []
  }

  /** The `Args` entry of a remark: present when there are arguments (the
      engine leaves out an empty sequence given to `mapOptional`). */
  function ArgumentsPart(args: seq<Argument>): seq<Entry>
  {
    if |args| > 0 then [Entry("Args", Sequence(ArgumentNodes(args)))] else []
  }

  /** `mapRemarkHeader`: the entries of a remark mapping. */
  function RemarkHeader(passName: string, remarkName: string, loc: Option<RemarkLocation>,
                        functionName: string, hotness: Option<uint64>, args: seq<Argument>): seq<Entry>
  {
    [Entry("Pass", Scalar(passName)), Entry("Name", Scalar(remarkName))]
    + LocationPart(loc)
    + [Entry("Function", Scalar(functionName))]
    + HotnessPart(hotness)
    + ArgumentsPart(args)
  }

  /** A remark is one block mapping tagged with its kind's tag. */
  function RemarkNode(r: Remark): (n: Node)
    requires r.remarkType != Unknown
    ensures n.Mapping? && !n.flow
    ensures n.tag == TagOf(r.remarkType) && n.tag.Some?
  {
    Mapping(TagOf(r.remarkType), false,
            RemarkHeader(r.passName, r.remarkName, r.loc, r.functionName, r.hotness, r.args))
  }

  /** The fixed order of the remark fields. */
  const FieldOrder: seq<string> := ["Pass", "Name", "DebugLoc", "Function", "Hotness", "Args"]

  /** Whether the remark mapping carries `field`: Pass, Name and Function
      always; DebugLoc and Hotness when set; Args when non-empty. */
  predicate FieldPresent(r: Remark, field: string)
  {
    if field == "DebugLoc" then r.loc.Some?
    else if field == "Hotness" then r.hotness.Some?
    else if field == "Args" then |r.args| > 0
    else true
  }

  /** The fields of `fields` that `r` carries, in the order of `fields`. */
  function PresentFields(r: Remark, fields: seq<string>): seq<string>
  {
    if |fields| == 0 then []
    else (if FieldPresent(r, fields[0]) then [fields[0]] else []) + PresentFields(r, fields[1..])
  }

  lemma KeysAppend(a: seq<Entry>, b: seq<Entry>)
    ensures Keys(a + b) == Keys(a) + Keys(b)
  {
  }

  /** A proof step only, not a second definition of the field order:
      `PresentFields(r, FieldOrder)` with the filter unrolled into one
      concatenation per field, so the emitted entries can be compared with it
      part by part (`PresentFieldsOfFieldOrder` proves the two equal). */
  function ExpectedKeys(r: Remark): seq<string>
  {
    ["Pass", "Name"]
    + (if r.loc.Some? then ["DebugLoc"] else [])
    + ["Function"]
    + (if r.hotness.Some? then ["Hotness"] else [])
    + (if |r.args| > 0 then ["Args"] else [])
  }

  /** Which optional keys the spelled-out key list holds. */
  lemma ExpectedKeysMembership(r: Remark)
    ensures "Pass" in ExpectedKeys(r) && "Name" in ExpectedKeys(r) && "Function" in ExpectedKeys(r)
    ensures "DebugLoc" in ExpectedKeys(r) <==> r.loc.Some?
    ensures "Hotness" in ExpectedKeys(r) <==> r.hotness.Some?
    ensures "Args" in ExpectedKeys(r) <==> |r.args| > 0
  {
    var locKeys: seq<string> := if r.loc.Some? then ["DebugLoc"] else [];
    var hotKeys: seq<string> := if r.hotness.Some? then ["Hotness"] else [];
    var argKeys: seq<string> := if |r.args| > 0 then ["Args"] else [];
    var names: seq<string> := ["Pass", "Name"];
    var fn: seq<string> := ["Function"];
    assert ExpectedKeys(r) == names + locKeys + fn + hotKeys + argKeys;
    assert "Args"[0] != "Pass"[0] && "Args"[0] != "Name"[0];
    assert "DebugLoc" !in names && "DebugLoc" !in fn && "DebugLoc" !in hotKeys && "DebugLoc" !in argKeys;
    assert "Hotness" !in names && "Hotness" !in fn && "Hotness" !in locKeys && "Hotness" !in argKeys;
    assert "Args" !in names && "Args" !in fn && "Args" !in locKeys && "Args" !in hotKeys;
  }

  /** Filtering the fixed field order by presence gives the spelled-out keys. */
  lemma PresentFieldsOfFieldOrder(r: Remark)
    ensures PresentFields(r, FieldOrder) == ExpectedKeys(r)
  {
    var locKeys := if r.loc.Some? then ["DebugLoc"] else [];
    var hotKeys := if r.hotness.Some? then ["Hotness"] else [];
    var argKeys := if |r.args| > 0 then ["Args"] else [];
    assert FieldPresent(r, "DebugLoc") == r.loc.Some?;
    assert FieldPresent(r, "Hotness") == r.hotness.Some?;
    assert FieldPresent(r, "Args") == (|r.args| > 0);
    assert FieldPresent(r, "Pass") && FieldPresent(r, "Name") && FieldPresent(r, "Function");
    calc {
      PresentFields(r, FieldOrder);
      ["Pass"] + PresentFields(r, ["Name", "DebugLoc", "Function", "Hotness", "Args"]);
      ["Pass", "Name"] + PresentFields(r, ["DebugLoc", "Function", "Hotness", "Args"]);
      ["Pass", "Name"] + locKeys + PresentFields(r, ["Function", "Hotness", "Args"]);
      ["Pass", "Name"] + locKeys + ["Function"] + PresentFields(r, ["Hotness", "Args"]);
      ["Pass", "Name"] + locKeys + ["Function"] + hotKeys + PresentFields(r, ["Args"]);
      ["Pass", "Name"] + locKeys + ["Function"] + hotKeys + argKeys;
    }
  }

  /** The emitted entries carry the spelled-out keys. */
  lemma RemarkHeaderKeys(r: Remark)
    ensures Keys(RemarkHeader(r.passName, r.remarkName, r.loc, r.functionName, r.hotness, r.args)) == ExpectedKeys(r)
  {
    var names := [Entry("Pass", Scalar(r.passName)), Entry("Name", Scalar(r.remarkName))];
    var fn := [Entry("Function", Scalar(r.functionName))];
    KeysAppend(names, LocationPart(r.loc));
    KeysAppend(names + LocationPart(r.loc), fn);
    KeysAppend(names + LocationPart(r.loc) + fn, HotnessPart(r.hotness));
    KeysAppend(names + LocationPart(r.loc) + fn + HotnessPart(r.hotness), ArgumentsPart(r.args));
  }

  /** The remark mapping's keys are the fixed field order with the absent
      optional fields left out: Pass, Name and Function always, DebugLoc and
      Hotness exactly when set, Args exactly when non-empty. */
  lemma FieldOrderIsFixed(r: Remark)
    requires r.remarkType != Unknown
    ensures Keys(RemarkNode(r).entries) == PresentFields(r, FieldOrder)
    ensures "Pass" in Keys(RemarkNode(r).entries) && "Name" in Keys(RemarkNode(r).entries)
            && "Function" in Keys(RemarkNode(r).entries)
    ensures "DebugLoc" in Keys(RemarkNode(r).entries) <==> r.loc.Some?
    ensures "Hotness" in Keys(RemarkNode(r).entries) <==> r.hotness.Some?
    ensures "Args" in Keys(RemarkNode(r).entries) <==> |r.args| > 0
  {
    PresentFieldsOfFieldOrder(r);
    RemarkHeaderKeys(r);
    var keys := ExpectedKeys(r);
    assert RemarkNode(r).entries == RemarkHeader(r.passName, r.remarkName, r.loc, r.functionName, r.hotness, r.args);
    assert Keys(RemarkNode(r).entries) == keys;
    ExpectedKeysMembership(r);
  }

  /** Takes a leading optional entry keyed `key`, if there is one. */
  function TakeOptional(entries: seq<Entry>, key: string): (Option<Node>, seq<Entry>)
  {
    if |entries| > 0 && entries[0].key == key then (Some(entries[0].value), entries[1..])
    else (None, entries)
  }

  /** Reads an optional `DebugLoc` entry; also returns the entries after it. */
  function DecodeLocationPart(entries: seq<Entry>): Option<(Option<RemarkLocation>, seq<Entry>)>
  {
    match TakeOptional(entries, "DebugLoc")
    case (None, rest) => Some((None, rest))
    case (Some(n), rest) =>
      match DecodeLocation(n)
      case None => None
      case Some(loc) => Some((Some(loc), rest))
  }

  /** Reads an optional `Hotness` entry; also returns the entries after it. */
  function DecodeHotnessPart(entries: seq<Entry>): Option<(Option<uint64>, seq<Entry>)>
  {
    match TakeOptional(entries, "Hotness")
    case (None, rest) => Some((None, rest))
    case (Some(n), rest) =>
      if n.Unsigned? && n.value < 0x1_0000_0000_0000_0000 then Some((Some(n.value as uint64), rest))
      else None
  }

  /** Reads an optional `Args` entry, which must be the last one. */
  function DecodeArgumentsPart(entries: seq<Entry>): Option<seq<Argument>>
  {
    match TakeOptional(entries, "Args")
    case (None, rest) => if |rest| == 0 then Some([]) else None
    case (Some(n), rest) =>
      if |rest| == 0 && n.Sequence? then DecodeArguments(n.items) else None
  }

  /** Reads the entries of a remark mapping back, in the fixed field order. */
  function DecodeRemarkHeader(kind: RemarkType, entries: seq<Entry>): Option<Remark>
  {
    if !(|entries| >= 2 && entries[0].key == "Pass" && entries[0].value.Scalar?
         && entries[1].key == "Name" && entries[1].value.Scalar?) then None
    else
      match DecodeLocationPart(entries[2..])
      case None => None
      case Some((loc, afterLoc)) =>
        if !(|afterLoc| > 0 && afterLoc[0].key == "Function" && afterLoc[0].value.Scalar?) then None
        else
          match DecodeHotnessPart(afterLoc[1..])
          case None => None
          case Some((hotness, afterHot)) =>
            match DecodeArgumentsPart(afterHot)
            case None => None
            case Some(args) =>
              Some(Remark(kind, entries[0].value.text, entries[1].value.text,
                          afterLoc[0].value.text, loc, hotness, args))
  }

  /** Reads a remark document back. */
  function DecodeRemark(n: Node): Option<Remark>
  {
    if !(n.Mapping? && !n.flow && n.tag.Some?) then None
    else
      match KindOfTag(TagTests, n.tag.value)
      case None => None
      case Some(kind) => DecodeRemarkHeader(kind, n.entries)
  }

  lemma LocationPartRoundTrip(loc: Option<RemarkLocation>, rest: seq<Entry>)
    requires |rest| > 0 && rest[0].key == "Function"
    ensures DecodeLocationPart(LocationPart(loc) + rest) == Some((loc, rest))
  {
    if loc.Some? {
      LocationRoundTrip(loc.value);
      assert (LocationPart(loc) + rest)[1..] == rest;
    } else {
      assert LocationPart(loc) + rest == rest;
      assert "Function"[0] != "DebugLoc"[0];
    }
  }

  lemma HotnessPartRoundTrip(hotness: Option<uint64>, rest: seq<Entry>)
    requires |rest| == 0 || rest[0].key == "Args"
    ensures DecodeHotnessPart(HotnessPart(hotness) + rest) == Some((hotness, rest))
  {
    if hotness.Some? {
      assert (HotnessPart(hotness) + rest)[1..] == rest;
    } else {
      assert HotnessPart(hotness) + rest == rest;
      assert |rest| == 0 || rest[0].key != "Hotness";
    }
  }

  lemma ArgumentsPartRoundTrip(args: seq<Argument>)
    ensures DecodeArgumentsPart(ArgumentsPart(args)) == Some(WrittenArguments(args))
  {
    if |args| > 0 {
      ArgumentsRoundTrip(args);
    }
  }

  /** The staged reading of a remark mapping, one field group at a time. */
  lemma DecodeRemarkHeaderStages(kind: RemarkType, pass: string, name: string, afterName: seq<Entry>,
                                 loc: Option<RemarkLocation>, fn: string, afterFn: seq<Entry>,
                                 hotness: Option<uint64>, afterHot: seq<Entry>, args: seq<Argument>)
    requires DecodeLocationPart(afterName) == Some((loc, [Entry("Function", Scalar(fn))] + afterFn))
    requires DecodeHotnessPart(afterFn) == Some((hotness, afterHot))
    requires DecodeArgumentsPart(afterHot) == Some(args)
    ensures DecodeRemarkHeader(kind, [Entry("Pass", Scalar(pass)), Entry("Name", Scalar(name))] + afterName)
            == Some(Remark(kind, pass, name, fn, loc, hotness, args))
  {
    var entries := [Entry("Pass", Scalar(pass)), Entry("Name", Scalar(name))] + afterName;
    assert entries[2..] == afterName;
    assert ([Entry("Function", Scalar(fn))] + afterFn)[1..] == afterFn;
  }

  /** The remark as the engine writes it: every argument key cut at its first
      NUL, everything else unchanged. */
  function WrittenRemark(r: Remark): (w: Remark)
    ensures w.remarkType == r.remarkType && w.passName == r.passName && w.remarkName == r.remarkName
    ensures w.functionName == r.functionName && w.loc == r.loc && w.hotness == r.hotness
    ensures w.args == WrittenArguments(r.args)
    ensures NulFreeKeys(r.args) ==> w == r
  {
    r.(args := WrittenArguments(r.args))
  }

  /** Reading the entries of a remark mapping back gives the remark's fields,
      with the argument keys as written. */
  lemma RemarkHeaderRoundTrip(r: Remark)
    ensures DecodeRemarkHeader(r.remarkType,
              RemarkHeader(r.passName, r.remarkName, r.loc, r.functionName, r.hotness, r.args))
            == Some(WrittenRemark(r))
  {
    var head := [Entry("Pass", Scalar(r.passName)), Entry("Name", Scalar(r.remarkName))];
    var fn := [Entry("Function", Scalar(r.functionName))];
    var afterHot := ArgumentsPart(r.args);
    var afterFn := HotnessPart(r.hotness) + afterHot;
    var afterName := LocationPart(r.loc) + (fn + afterFn);
    assert RemarkHeader(r.passName, r.remarkName, r.loc, r.functionName, r.hotness, r.args)
           == head + afterName;
    LocationPartRoundTrip(r.loc, fn + afterFn);
    HotnessPartRoundTrip(r.hotness, afterHot);
    ArgumentsPartRoundTrip(r.args);
    DecodeRemarkHeaderStages(r.remarkType, r.passName, r.remarkName, afterName,
                             r.loc, r.functionName, afterFn, r.hotness, afterHot, WrittenArguments(r.args));
  }

  /** Reading a remark's document back gives the remark as written: the tag
      gives the kind and the entries give the fields, arguments in order. A
      remark whose argument keys have no NUL comes back whole. */
  lemma RemarkRoundTrip(r: Remark)
    requires r.remarkType != Unknown
    ensures DecodeRemark(RemarkNode(r)) == Some(WrittenRemark(r))
    ensures NulFreeKeys(r.args) ==> DecodeRemark(RemarkNode(r)) == Some(r)
  {
    TagIdentifiesKind(r.remarkType);
    RemarkHeaderRoundTrip(r);
  }
}
