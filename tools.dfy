/**
 * The MCP side of the server: the catalog of six tools the ListTools handler returns,
 * the error texts, and the CallTool switch that routes a tool name to one document
 * operation and turns every failure into a single text result.
 */
module Tools {
  import opened Wrappers
  import opened Text
  import opened Order
  import opened Documents

  // ---------------------------------------------------------------------------
  // The catalog

  /**
   * A tool as the ListTools handler describes it: its name, the properties of its
   * input object (every one of type string) and the properties it requires.
   * The Korean descriptions are not modelled.
   */
  datatype Tool = Tool(name: string, properties: seq<string>, required: seq<string>)

  /** The tool list of the ListTools handler, in its order. */
  const Catalog: seq<Tool> := [
    Tool("listDocuments", [], []),
    Tool("readDocument", ["filename"], ["filename"]),
    Tool("writeDocument", ["filename", "content"], ["filename", "content"]),
    Tool("updateDocument", ["filename", "content"], ["filename", "content"]),
    Tool("deleteDocument", ["filename"], ["filename"]),
    Tool("searchDocuments", ["keyword"], ["keyword"])
  ]

  /** The names of the catalog's tools, in order. */
  function ToolNames(): seq<string> {
    seq(|Catalog|, i requires 0 <= i < |Catalog| => Catalog[i].name)
  }

  /**
   * The catalog offers six tools under six different names, and every property a tool
   * requires is one of its declared properties.
   */
  lemma CatalogWellFormed()
    ensures |ToolNames()| == 6
    ensures Distinct(ToolNames())
    ensures forall t, p :: t in Catalog && p in t.required ==> p in t.properties
  {
    var names := ToolNames();
    assert names == ["listDocuments", "readDocument", "writeDocument", "updateDocument",
                     "deleteDocument", "searchDocuments"];
  }

  // ---------------------------------------------------------------------------
  // Error texts

  /** Why a tool call failed. */
  datatype ToolError =
    | UnknownTool(name: string)   // the switch's default case
    | NoArguments                 // `args` was undefined, so reading `args.filename` threw
    | StoreFailed(failure: Failure)

  /** The prefix each document operation puts before the message of what it caught. */
  function Prefix(op: Operation): (p: string)
    ensures |p| == 10
  {
    match op
    case ReadOp => "문서 읽기 실패: "
    case WriteOp => "문서 생성 실패: "
    case UpdateOp => "문서 수정 실패: "
    case DeleteOp => "문서 삭제 실패: "
    case SearchOp => "문서 검색 실패: "
  }

  /**
   * Stands in for the JavaScript engine's TypeError text (such as reading a property of
   * undefined); the model keeps only which parameter it was about.
   */
  function TypeErrorMessage(parameter: string): string {
    "TypeError: " + parameter
  }

  /** The message of the error an operation throws before its own prefix is added. */
  function CauseMessage(op: Operation, cause: Cause): string {
    match cause
    case NotFound(f) =>
      "문서를 찾을 수 없습니다: " + f + (if op == UpdateOp then ". writeDocument를 사용하여 새로 생성하세요." else "")
    case AlreadyExists(f) => "문서가 이미 존재합니다: " + f + ". updateDocument를 사용하세요."
    case NotAString(p) => TypeErrorMessage(p)
  }

  /** `error.message` of a failed tool call. */
  function Message(e: ToolError): string {
    match e
    case UnknownTool(name) => "알 수 없는 도구: " + name
    case NoArguments => TypeErrorMessage("arguments")
    case StoreFailed(f) => Prefix(f.op) + CauseMessage(f.op, f.cause)
  }

  /** The single text item of an error result: the message, then the directory. */
  function ErrorText(message: string, docsPath: string): string {
    "오류 발생: " + message + "\n경로: " + docsPath
  }

  /** The error text starts with the message and ends with the directory, so it names both. */
  lemma ErrorTextShape(message: string, docsPath: string)
    ensures StartsWith(ErrorText(message, docsPath), "오류 발생: " + message)
    ensures EndsWith(ErrorText(message, docsPath), "\n경로: " + docsPath)
    ensures Includes(ErrorText(message, docsPath), docsPath)
    ensures Includes(ErrorText(message, docsPath), message)
  {
    var head := "오류 발생: ";
    var tail := "\n경로: ";
    assert ErrorText(message, docsPath) == (head + message + tail) + docsPath + "";
    OccursInMiddle(head + message + tail, docsPath, "");
    IncludesIffOccurs(ErrorText(message, docsPath), docsPath);
    assert ErrorText(message, docsPath) == head + message + (tail + docsPath);
    OccursInMiddle(head, message, tail + docsPath);
    IncludesIffOccurs(ErrorText(message, docsPath), message);
  }

  /** The operation named by the prefix of a store failure's message, if any. */
  function OperationOf(message: string): Option<Operation> {
    if StartsWith(message, Prefix(ReadOp)) then Some(ReadOp)
    else if StartsWith(message, Prefix(WriteOp)) then Some(WriteOp)
    else if StartsWith(message, Prefix(UpdateOp)) then Some(UpdateOp)
    else if StartsWith(message, Prefix(DeleteOp)) then Some(DeleteOp)
    else if StartsWith(message, Prefix(SearchOp)) then Some(SearchOp)
    else None
  }

  lemma StartsWithPrefixOf(p: string, rest: string, q: string)
    requires |q| == |p|
    ensures StartsWith(p + rest, q) <==> q == p
  {
    assert (p + rest)[..|p|] == p;
  }

  /** A store failure's message says which operation failed: the prefixes are told apart. */
  lemma OperationOfMessage(f: Failure)
    ensures OperationOf(Message(StoreFailed(f))) == Some(f.op)
  {
    var rest := CauseMessage(f.op, f.cause);
    forall op: Operation ensures StartsWith(Prefix(f.op) + rest, Prefix(op)) <==> op == f.op {
      StartsWithPrefixOf(Prefix(f.op), rest, Prefix(op));
    }
  }

  /** A missing or existing document is named in the message. */
  lemma MessageNamesDocument(f: Failure)
    requires f.cause.NotFound? || f.cause.AlreadyExists?
    ensures Includes(Message(StoreFailed(f)), f.cause.filename)
  {
    match f.cause
    case NotFound(name) =>
      var trail := if f.op == UpdateOp then ". writeDocument를 사용하여 새로 생성하세요." else "";
      OccursInMiddle("문서를 찾을 수 없습니다: ", name, trail);
      OccursAfter(Prefix(f.op), CauseMessage(f.op, f.cause), name);
      IncludesIffOccurs(Message(StoreFailed(f)), name);
    case AlreadyExists(name) =>
      OccursInMiddle("문서가 이미 존재합니다: ", name, ". updateDocument를 사용하세요.");
      OccursAfter(Prefix(f.op), CauseMessage(f.op, f.cause), name);
      IncludesIffOccurs(Message(StoreFailed(f)), name);
  }

  /** An unknown tool's message repeats the name it was called with. */
  lemma UnknownToolMessage(name: string)
    ensures Includes(Message(UnknownTool(name)), name)
  {
    OccursInMiddle("알 수 없는 도구: ", name, "");
    assert Message(UnknownTool(name)) == "알 수 없는 도구: " + name + "";
    IncludesIffOccurs(Message(UnknownTool(name)), name);
  }

  // ---------------------------------------------------------------------------
  // The CallTool switch

  /**
   * The `arguments` object of a call, by its string-valued members; a member that is
   * missing or not a string behaves alike: a name or keyword makes its string method
   * throw, and content makes `fs.writeFileSync` throw.
   */
  type Arguments = map<string, string>

  /** `args.<key>` */
  function Arg(args: Arguments, key: string): Option<string> {
    if key in args then Some(args[key]) else None
  }

  /** What the CallTool handler returns: the operation's reply, or one error text. */
  datatype ToolResult =
    | Replied(reply: Reply)
    | Failed(error: ToolError, text: string)

  /** The handler's result together with the directory it leaves. */
  datatype Outcome = Outcome(result: ToolResult, docs: Docs)

  /** The catch block: a failure becomes the error text, the directory is what the step left. */
  function Caught(step: Step, docsPath: string): Outcome {
    match step.result
    case Ok(reply) => Outcome(Replied(reply), step.docs)
    case Err(f) => Outcome(Failed(StoreFailed(f), ErrorText(Message(StoreFailed(f)), docsPath)), step.docs)
  }

  function Reject(e: ToolError, docs: Docs, docsPath: string): Outcome {
    Outcome(Failed(e, ErrorText(Message(e), docsPath)), docs)
  }

  /** The six operations the CallTool switch knows. */
  datatype ToolKind = ListTool | ReadTool | WriteTool | UpdateTool | DeleteTool | SearchTool

  /** The case labels of the CallTool switch: the operation a tool name selects, if any. */
  function ToolOf(name: string): Option<ToolKind> {
    match name
    case "listDocuments" => Some(ListTool)
    case "readDocument" => Some(ReadTool)
    case "writeDocument" => Some(WriteTool)
    case "updateDocument" => Some(UpdateTool)
    case "deleteDocument" => Some(DeleteTool)
    case "searchDocuments" => Some(SearchTool)
    case _ => None
  }

  /** The switch's labels are exactly the names the tool list advertises. */
  lemma ToolOfCatalog(name: string)
    ensures ToolOf(name).Some? <==> name in ToolNames()
  {
    assert ToolNames() == ["listDocuments", "readDocument", "writeDocument", "updateDocument",
                           "deleteDocument", "searchDocuments"];
  }

  /**
   * One branch of the switch on a directory `docs` read in the order `listing`: the
   * operation it calls and the catch that turns any error into a text result. Every
   * branch but listDocuments reads a property of `args` first.
   */
  function Run(docs: Docs, listing: seq<string>, docsPath: string, kind: ToolKind, args: Option<Arguments>): Outcome
    requires forall f :: f in listing ==> f in docs
  {
    match kind
    case ListTool => Outcome(Replied(Listing(DocumentNames(listing))), docs)
    case ReadTool =>
      if args.None? then Reject(NoArguments, docs, docsPath)
      else Caught(Step(Read(docs, Arg(args.value, "filename")), docs), docsPath)
    case WriteTool =>
      if args.None? then Reject(NoArguments, docs, docsPath)
      else Caught(Write(docs, Arg(args.value, "filename"), Arg(args.value, "content")), docsPath)
    case UpdateTool =>
      if args.None? then Reject(NoArguments, docs, docsPath)
      else Caught(Update(docs, Arg(args.value, "filename"), Arg(args.value, "content")), docsPath)
    case DeleteTool =>
      if args.None? then Reject(NoArguments, docs, docsPath)
      else Caught(Delete(docs, Arg(args.value, "filename")), docsPath)
    case SearchTool =>
      if args.None? then Reject(NoArguments, docs, docsPath)
      else Caught(Step(Search(docs, listing, Arg(args.value, "keyword")), docs), docsPath)
  }

  /** The CallTool handler: the switch on the tool name, with unknown names rejected. */
  function Dispatch(docs: Docs, listing: seq<string>, docsPath: string, name: string, args: Option<Arguments>): Outcome
    requires forall f :: f in listing ==> f in docs
  {
    match ToolOf(name)
    case None => Reject(UnknownTool(name), docs, docsPath)
    case Some(kind) => Run(docs, listing, docsPath, kind, args)
  }

  /**
   * The switch handles exactly the catalog's names: a name is reported unknown if and
   * only if the catalog does not list it.
   */
  lemma DispatchHandlesCatalog(docs: Docs, listing: seq<string>, docsPath: string, name: string, args: Option<Arguments>)
    requires forall f :: f in listing ==> f in docs
    ensures Dispatch(docs, listing, docsPath, name, args).result == Reject(UnknownTool(name), docs, docsPath).result
        <==> name !in ToolNames()
  {
    ToolOfCatalog(name);
    if kind :| ToolOf(name) == Some(kind) {
      var r := Run(docs, listing, docsPath, kind, args).result;
      assert !(r.Failed? && r.error.UnknownTool?) by {
        match kind
        case ListTool =>
        case ReadTool =>
        case WriteTool =>
        case UpdateTool =>
        case DeleteTool =>
        case SearchTool =>
      }
    }
  }

  /** A failed branch leaves the directory as it was and reports its error's text. */
  lemma RunFailure(docs: Docs, listing: seq<string>, docsPath: string, kind: ToolKind, args: Option<Arguments>)
    requires forall f :: f in listing ==> f in docs
    requires Run(docs, listing, docsPath, kind, args).result.Failed?
    ensures Run(docs, listing, docsPath, kind, args).docs == docs
    ensures Run(docs, listing, docsPath, kind, args).result.text
         == ErrorText(Message(Run(docs, listing, docsPath, kind, args).result.error), docsPath)
  {
    if args.Some? {
      var filename, content := Arg(args.value, "filename"), Arg(args.value, "content");
      match kind
      case ListTool =>
      case ReadTool =>
      case WriteTool => FailureChangesNothing(docs, filename, content);
      case UpdateTool => FailureChangesNothing(docs, filename, content);
      case DeleteTool => FailureChangesNothing(docs, filename, content);
      case SearchTool =>
    }
  }

  /** A failed tool call leaves the directory as it was. */
  lemma DispatchFailureKeepsDocs(docs: Docs, listing: seq<string>, docsPath: string, name: string, args: Option<Arguments>)
    requires forall f :: f in listing ==> f in docs
    requires Dispatch(docs, listing, docsPath, name, args).result.Failed?
    ensures Dispatch(docs, listing, docsPath, name, args).docs == docs
  {
    if kind :| ToolOf(name) == Some(kind) {
      RunFailure(docs, listing, docsPath, kind, args);
    }
  }

  /**
   * The handler never lets an error out: every failure, an unknown name included, is one
   * text result made from the error's message, and it names the document directory.
   */
  lemma DispatchFailureText(docs: Docs, listing: seq<string>, docsPath: string, name: string, args: Option<Arguments>)
    requires forall f :: f in listing ==> f in docs
    requires Dispatch(docs, listing, docsPath, name, args).result.Failed?
    ensures Dispatch(docs, listing, docsPath, name, args).result.text
         == ErrorText(Message(Dispatch(docs, listing, docsPath, name, args).result.error), docsPath)
    ensures Includes(Dispatch(docs, listing, docsPath, name, args).result.text, docsPath)
  {
    if kind :| ToolOf(name) == Some(kind) {
      RunFailure(docs, listing, docsPath, kind, args);
    }
    var o := Dispatch(docs, listing, docsPath, name, args);
    ErrorTextShape(Message(o.result.error), docsPath);
  }

  /** listDocuments ignores its arguments and never fails. */
  lemma DispatchList(docs: Docs, listing: seq<string>, docsPath: string, args: Option<Arguments>)
    requires IsListingOf(listing, docs)
    ensures var o := Dispatch(docs, listing, docsPath, "listDocuments", args);
      && o.docs == docs
      && o.result.Replied? && o.result.reply.Listing?
      && Sorted(o.result.reply.names) && Distinct(o.result.reply.names)
      && forall k :: k in o.result.reply.names <==> k in docs && EndsWith(k, Suffix)
  {
    DocumentNamesSpec(listing, docs);
  }
}
