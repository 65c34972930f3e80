/**
 * The DocumentoryServer object: its document directory (held in memory as a map that its
 * methods update in place), the CallTool handler over it, and the session table that the
 * /sse and /messages endpoints maintain.
 */
module Server {
  import opened Wrappers
  import opened Text
  import opened Order
  import opened Documents
  import opened Tools

  // ---------------------------------------------------------------------------
  // Routing a POST to /messages

  /** Why a posted message is refused. */
  datatype Rejection = InvalidSessionId | SessionNotFound

  /** How the /messages endpoint answers a post. */
  datatype Route<T> =
    | Forward(transport: T)                    // handed to the session's transport
    | Rejected(status: nat, reason: Rejection) // a 400 reply
    | Crashed(status: nat)                     // the handler threw; Express replies 500

  const BadRequest := 400
  const InternalError := 500

  /**
   * The post routing the endpoint is meant to have: a session id that is not a string is
   * invalid, an id without a session is not found, and only a live session's transport
   * receives the message.
   */
  function RoutePost<T>(table: map<string, T>, sessionId: Option<string>): Route<T> {
    if sessionId.None? then Rejected(BadRequest, InvalidSessionId)
    else if sessionId.value !in table then Rejected(BadRequest, SessionNotFound)
    else Forward(table[sessionId.value])
  }

  /** Only a session in the table receives a message, and it is that session's transport. */
  lemma RoutePostForwards<T>(table: map<string, T>, sessionId: Option<string>)
    ensures RoutePost(table, sessionId).Forward? <==> sessionId.Some? && sessionId.value in table
    ensures RoutePost(table, sessionId).Forward? ==> RoutePost(table, sessionId).transport == table[sessionId.value]
    ensures !RoutePost(table, sessionId).Forward? ==>
      RoutePost(table, sessionId).Rejected? && RoutePost(table, sessionId).status == 400
  {
  }

  /**
   * The properties every object inherits from `Object.prototype`: looking one of them up
   * in the plain object `this.transports` finds a function (or, for `__proto__`, the
   * prototype itself), never `undefined`.
   */
  const PrototypeMembers: set<string> := {
    "constructor", "__proto__", "hasOwnProperty", "isPrototypeOf", "propertyIsEnumerable",
    "toLocaleString", "toString", "valueOf", "__defineGetter__", "__defineSetter__",
    "__lookupGetter__", "__lookupSetter__"
  }

  /**
   * The routing as written: `this.transports[sessionId]` also finds inherited members, which
   * pass the `!transport` test; calling `handlePostMessage` on them then throws a TypeError,
   * and Express answers 500.
   */
  function RoutePostAsWritten<T>(table: map<string, T>, sessionId: Option<string>): Route<T> {
    if sessionId.None? then Rejected(BadRequest, InvalidSessionId)
    else if sessionId.value in table then Forward(table[sessionId.value])
    else if sessionId.value in PrototypeMembers then Crashed(InternalError)
    else Rejected(BadRequest, SessionNotFound)
  }

  /** A post naming session "toString" with no such session crashes with 500 instead of 400. */
  lemma PrototypeSessionIdCrashes<T>(table: map<string, T>)
    requires "toString" !in table
    ensures RoutePostAsWritten(table, Some("toString")) == Crashed(500)
    ensures RoutePost(table, Some("toString")) == Rejected(400, SessionNotFound)
  {
  }

  /** Away from inherited member names the code as written routes as intended. */
  lemma AsWrittenAgreesOffPrototype<T>(table: map<string, T>, sessionId: Option<string>)
    requires sessionId.Some? && sessionId.value !in table ==> sessionId.value !in PrototypeMembers
    ensures RoutePostAsWritten(table, sessionId) == RoutePost(table, sessionId)
  {
  }

  /** A session just connected receives its own messages. */
  lemma RouteAfterConnect<T>(table: map<string, T>, id: string, transport: T)
    ensures RoutePost(table[id := transport], Some(id)) == Forward(transport)
  {
  }

  /**
   * After a session's connection closes its messages are refused, and every other id is
   * routed as before.
   */
  lemma RouteAfterClose<T>(table: map<string, T>, id: string, sessionId: Option<string>)
    ensures RoutePost(table - {id}, Some(id)) == Rejected(400, SessionNotFound)
    ensures sessionId != Some(id) ==> RoutePost(table - {id}, sessionId) == RoutePost(table, sessionId)
  {
  }

  /** How a GET on /sse ends. */
  datatype SseAnswer =
    | Streaming               // the transport is connected and the event stream stays open
    | ConnectFailed(status: nat)  // connecting threw; a 500 JSON reply is sent

  // ---------------------------------------------------------------------------
  // The server

  class DocumentoryServer<Transport> {
    /** The document directory's path, used in every reply and error text. */
    const docsPath: string
    const port: int
    /** The files of the document directory: name to content. */
    var docs: Docs
    /** `this.transports`: session id to its SSE transport. */
    var transports: map<string, Transport>
    /** The sessions whose connection has a close handler registered. */
    var closeHandlers: set<string>

    /** Every registered close handler belongs to a session in the table. */
    ghost predicate Valid()
      reads this
    {
      closeHandlers <= transports.Keys
    }

    /**
     * `docsPath || path.join(process.cwd(), 'docs')`: a missing or empty path falls back to
     * the `docs` folder of the working directory, given here as `defaultDocsPath`. The
     * directory starts with the files `docs` already holds.
     */
    constructor(docsPath: Option<string>, defaultDocsPath: string, port: int, docs: Docs)
      ensures this.docsPath == if docsPath.Some? && docsPath.value != "" then docsPath.value else defaultDocsPath
      ensures this.port == port && this.docs == docs
      ensures transports == map[] && closeHandlers == {}
      ensures Valid()
    {
      this.docsPath := if docsPath.Some? && docsPath.value != "" then docsPath.value else defaultDocsPath;
      this.port := port;
      this.docs := docs;
      transports := map[];
      closeHandlers := {};
    }

    // -------------------------------------------------------------------------
    // Document operations

    /** readDocument */
    method ReadDocument(filename: Option<string>) returns (r: Result<Reply, Failure>)
      ensures r == Read(docs, filename)
    {
      if filename.None? {
        return Err(Failure(ReadOp, NotAString("filename")));
      }
      var name := filename.value;
      if !EndsWith(name, Suffix) {
        name := name + Suffix;
      }
      if name !in docs {
        return Err(Failure(ReadOp, NotFound(name)));
      }
      r := Ok(Document(name, docs[name]));
    }

    /** writeDocument */
    method WriteDocument(filename: Option<string>, content: Option<string>) returns (r: Result<Reply, Failure>)
      modifies this`docs
      ensures Step(r, docs) == Write(old(docs), filename, content)
    {
      if filename.None? {
        return Err(Failure(WriteOp, NotAString("filename")));
      }
      var name := filename.value;
      if !EndsWith(name, Suffix) {
        name := name + Suffix;
      }
      if name in docs {
        return Err(Failure(WriteOp, AlreadyExists(name)));
      }
      if content.None? {
        return Err(Failure(WriteOp, NotAString("content")));
      }
      docs := docs[name := content.value];
      r := Ok(Created(name, |content.value|));
    }

    /** updateDocument */
    method UpdateDocument(filename: Option<string>, content: Option<string>) returns (r: Result<Reply, Failure>)
      modifies this`docs
      ensures Step(r, docs) == Update(old(docs), filename, content)
    {
      if filename.None? {
        return Err(Failure(UpdateOp, NotAString("filename")));
      }
      var name := filename.value;
      if !EndsWith(name, Suffix) {
        name := name + Suffix;
      }
      if name !in docs {
        return Err(Failure(UpdateOp, NotFound(name)));
      }
      if content.None? {
        return Err(Failure(UpdateOp, NotAString("content")));
      }
      docs := docs[name := content.value];
      r := Ok(Updated(name, |content.value|));
    }

    /** deleteDocument */
    method DeleteDocument(filename: Option<string>) returns (r: Result<Reply, Failure>)
      modifies this`docs
      ensures Step(r, docs) == Delete(old(docs), filename)
    {
      if filename.None? {
        return Err(Failure(DeleteOp, NotAString("filename")));
      }
      var name := filename.value;
      if !EndsWith(name, Suffix) {
        name := name + Suffix;
      }
      if name !in docs {
        return Err(Failure(DeleteOp, NotFound(name)));
      }
      docs := docs - {name};
      r := Ok(Deleted(name));
    }

    /**
     * listDocuments, with the directory read in the order `listing`: the `.md` names of the
     * directory, each once, in ascending order.
     */
    method ListDocuments(listing: seq<string>) returns (r: Reply)
      requires IsListingOf(listing, docs)
      ensures r == Listing(DocumentNames(listing))
      ensures Sorted(r.names) && Distinct(r.names)
      ensures forall k :: k in r.names <==> k in docs && EndsWith(k, Suffix)
    {
      var files := MarkdownOnly(listing);
      DocumentNamesSpec(listing, docs);
      r := Listing(Sort(files));
    }

    /**
     * searchDocuments, with the directory read in the order `listing`: the loop over the
     * `.md` files pushes a hit for each file whose content holds the keyword.
     */
    method SearchDocuments(listing: seq<string>, keyword: Option<string>) returns (r: Result<Reply, Failure>)
      requires IsListingOf(listing, docs)
      ensures r == Search(docs, listing, keyword)
    {
      var files := MarkdownOnly(listing);
      assert forall f :: f in files ==> f in docs;
      var results: seq<Hit> := [];
      for i := 0 to |files|
        invariant keyword.None? ==> i == 0 && results == []
        invariant keyword.Some? ==> results == Hits(docs, files[..i], keyword.value)
      {
        var file := files[i];
        var content := docs[file];
        if keyword.None? {
          // `keyword.toLowerCase()` throws on the first file.
          return Err(Failure(SearchOp, NotAString("keyword")));
        }
        HitsStep(docs, files, i, keyword.value);
        if Includes(Lower(content), Lower(keyword.value)) {
          results := results + [Hit(file, MatchingLines(content, keyword.value))];
        }
      }
      assert files[..|files|] == files;
      if results == [] {
        return Ok(NoResults(keyword));
      }
      r := Ok(Found(keyword.value, results));
    }

    // -------------------------------------------------------------------------
    // The CallTool handler

    /**
     * The CallTool handler: the switch on the tool name calls one document operation and
     * any error becomes one text result naming the directory; nothing is thrown.
     */
    method CallTool(name: string, args: Option<Arguments>, listing: seq<string>) returns (r: ToolResult)
      requires IsListingOf(listing, docs)
      modifies this`docs
      ensures Outcome(r, docs) == Dispatch(old(docs), listing, docsPath, name, args)
      ensures r.Failed? ==> docs == old(docs) && Includes(r.text, docsPath)
    {
      var step: Result<Reply, Failure>;
      match ToolOf(name) {
        case Some(ListTool) =>
          var reply := ListDocuments(listing);
          step := Ok(reply);
        case Some(ReadTool) =>
          if args.None? {
            r := Failed(NoArguments, ErrorText(Message(NoArguments), docsPath));
            ErrorTextShape(Message(NoArguments), docsPath);
            return;
          }
          step := ReadDocument(Arg(args.value, "filename"));
        case Some(WriteTool) =>
          if args.None? {
            r := Failed(NoArguments, ErrorText(Message(NoArguments), docsPath));
            ErrorTextShape(Message(NoArguments), docsPath);
            return;
          }
          step := WriteDocument(Arg(args.value, "filename"), Arg(args.value, "content"));
        case Some(UpdateTool) =>
          if args.None? {
            r := Failed(NoArguments, ErrorText(Message(NoArguments), docsPath));
            ErrorTextShape(Message(NoArguments), docsPath);
            return;
          }
          step := UpdateDocument(Arg(args.value, "filename"), Arg(args.value, "content"));
        case Some(DeleteTool) =>
          if args.None? {
            r := Failed(NoArguments, ErrorText(Message(NoArguments), docsPath));
            ErrorTextShape(Message(NoArguments), docsPath);
            return;
          }
          step := DeleteDocument(Arg(args.value, "filename"));
        case Some(SearchTool) =>
          if args.None? {
            r := Failed(NoArguments, ErrorText(Message(NoArguments), docsPath));
            ErrorTextShape(Message(NoArguments), docsPath);
            return;
          }
          step := SearchDocuments(listing, Arg(args.value, "keyword"));
        case None =>
          r := Failed(UnknownTool(name), ErrorText(Message(UnknownTool(name)), docsPath));
          ErrorTextShape(Message(UnknownTool(name)), docsPath);
          return;
      }
      match step {
        case Ok(reply) =>
          r := Replied(reply);
        case Err(f) =>
          r := Failed(StoreFailed(f), ErrorText(Message(StoreFailed(f)), docsPath));
          ErrorTextShape(Message(StoreFailed(f)), docsPath);
          FailureChangesNothing(old(docs), if args.Some? then Arg(args.value, "filename") else None,
                                if args.Some? then Arg(args.value, "content") else None);
      }
    }

    // -------------------------------------------------------------------------
    // The session table

    /**
     * GET /sse: the new transport is entered under its fresh session id before connecting;
     * only when connecting succeeds is a close handler registered, so a failed connection
     * leaves its entry in the table.
     */
    method Connect(id: string, transport: Transport, connected: bool) returns (answer: SseAnswer)
      requires Valid() && id !in transports
      modifies this`transports, this`closeHandlers
      ensures Valid()
      ensures transports == old(transports)[id := transport]
      ensures closeHandlers == if connected then old(closeHandlers) + {id} else old(closeHandlers)
      ensures answer == if connected then Streaming else ConnectFailed(InternalError)
    {
      transports := transports[id := transport];
      if !connected {
        return ConnectFailed(InternalError);
      }
      closeHandlers := closeHandlers + {id};
      answer := Streaming;
    }

    /**
     * The SSE request of session `id` closes: its close handler, if one was registered,
     * deletes the session; otherwise nothing happens.
     */
    method Close(id: string)
      requires Valid()
      modifies this`transports, this`closeHandlers
      ensures Valid()
      ensures transports == if id in old(closeHandlers) then old(transports) - {id} else old(transports)
      ensures closeHandlers == old(closeHandlers) - {id}
    {
      if id in closeHandlers {
        transports := transports - {id};
        closeHandlers := closeHandlers - {id};
      }
    }

    /**
     * POST /messages: a non-string session id is invalid, an unknown one is not found (both
     * 400), and a known one is forwarded to its transport; the table is not changed.
     */
    method PostMessage(sessionId: Option<string>) returns (r: Route<Transport>)
      ensures r == RoutePost(transports, sessionId)
      ensures r.Forward? <==> sessionId.Some? && sessionId.value in transports
      ensures !r.Forward? ==> r.Rejected? && r.status == 400
    {
      if sessionId.None? {
        return Rejected(BadRequest, InvalidSessionId);
      }
      if sessionId.value !in transports {
        return Rejected(BadRequest, SessionNotFound);
      }
      r := Forward(transports[sessionId.value]);
    }
  }
}
