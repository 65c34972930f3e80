# Documentory server, modelled in Dafny

Documentory is a small MCP server (`server.js`) that lets an AI client manage a project's
Markdown documents. Clients connect over SSE (`GET /sse`), post MCP messages to
`POST /messages?sessionId=…`, list six tools, and call them to list, read, create,
update, delete and search the `.md` files of one documents directory. A command-line
parser picks the directory, the port and a development flag.

This project models the logic of that server and proves what it promises:

- **The document store** (`documents.dfy`, `server.dfy`). The directory is a
  `map<string, string>` from file name to content. The class
  `Server.DocumentoryServer` holds it in the field `docs`, and its methods
  `ReadDocument`, `WriteDocument`, `UpdateDocument` and `DeleteDocument` update it in
  place. Each method is proved equal to a pure step function in module `Documents`, and
  the lemmas there state the properties:
  - names get `.md` appended unless they already end in it;
  - write refuses an existing name; update and delete refuse an absent one;
  - a failure leaves the directory unchanged;
  - a success changes exactly one entry.

  `ListDocuments` is the `.md` filter followed by JavaScript's default sort.
  `SearchDocuments` keeps the source's `for` loop over the `.md` files. Its invariant ties
  the pushed results to the function `Hits`, and the lemmas give the per-file and
  per-line guarantees.
- **The tool catalog and the CallTool switch** (`tools.dfy`). The six tools as the
  ListTools handler lists them. The switch is the function `Dispatch`: `ToolOf` holds its
  case labels and `Run` its branches. `DocumentoryServer.CallTool` is proved to follow it. Every error, including an unknown
  tool name, becomes one text result that names the documents directory.
- **The session table** (`server.dfy`). The field `transports` maps a session id to its
  transport, which the model does not look inside:
  - `Connect` enters a fresh id;
  - `Close` runs the connection's close handler;
  - `PostMessage` routes a post or refuses it with 400.
- **`parseArguments`** (`cli.dfy`). It yields help, a refused port, or the configuration.
  The model includes the part of JavaScript's `parseInt` that reads the port.
- **JavaScript's string and sort behaviour** (`text.dfy`, `order.dfy`). `includes`,
  `toLowerCase` (ASCII letters), `split` and the default `sort()` order are defined here,
  each with the facts the proofs need.
- **Worked examples** (`scenarios.dfy`). A listing of `b.md`, `a.md`, `c.txt`, and a
  search for "hello".

Four behaviours of the code that a reader might not expect, all kept by the model:

- There is no argument validation before dispatch. A missing `arguments` object fails at
  the property read in the switch, before any operation runs. A missing or non-string name
  or keyword fails in the string method called on it. A missing or non-string `content`
  fails in `fs.writeFileSync`. Each error is then caught like any other. Write and update
  check whether the file exists before they use the content, so a bad content is only
  reported once that check has passed.
- There is no check that a file name stays inside the directory. Names are plain keys.
- Session cleanup is not guaranteed. When `server.connect` throws, the session's entry
  stays in `transports`, and no close handler is ever registered for it.
- A search with an undefined keyword fails only when there is at least one `.md` file. With
  none, the loop never calls `keyword.toLowerCase()`, and the reply is "no results".

I/O is replaced by parameters:

- The order in which `readdirSync` returns the directory's names is a parameter
  `listing`, required to hold each name of `docs` once.
- Whether `server.connect` succeeds is the parameter `connected` of `Connect`.
- The working directory's `docs` folder is the parameter `defaultDocsPath` of the
  constructor.

## Model

| member | source | states |
|---|---|---|
| Documents.Normalize | server.js:298-300 | the name used always ends in `.md`, and is the given name or that name with `.md` appended |
| Documents.NormalizeIdempotent | server.js:323-325 | normalising twice gives the same name as normalising once |
| Documents.NormalizeKeepsSuffixed | server.js:348-350 | a name already ending in `.md` is left unchanged |
| Documents.NormalizeSuffixOptional | server.js:373-375 | a name without `.md` and the same name with `.md` normalise to the same file |
| Documents.Read | server.js:296-319 | readDocument: the content under the normalised name; NotFound when that name is absent; the TypeError failure for a missing name. Its properties are in SuffixOptional and WriteThenRead |
| Documents.Write | server.js:321-344 | writeDocument: AlreadyExists when the normalised name is present; otherwise the content is stored under it and its length reported. Its properties are in WriteEffect, WriteTwice and FailureChangesNothing |
| Documents.Update | server.js:346-369 | updateDocument: NotFound when the normalised name is absent; otherwise the content replaces it. Its properties are in UpdateEffect and UpdateAbsent |
| Documents.Delete | server.js:371-394 | deleteDocument: NotFound when the normalised name is absent; otherwise that entry is removed. Its properties are in DeleteTwice |
| Documents.SuffixOptional | server.js:296-394 | read, write, update and delete of `f` behave exactly as of `f + ".md"` when `f` lacks the extension |
| Documents.FailureChangesNothing | server.js:321-394 | a failing write, update or delete leaves the directory unchanged |
| Documents.WriteEffect | server.js:321-344 | write of an existing name fails with AlreadyExists and changes nothing; otherwise it adds exactly that name with the content, keeps every other entry and reports the content length |
| Documents.WriteThenRead | server.js:296-344 | reading a name just written returns exactly the written content under the normalised name |
| Documents.WriteTwice | server.js:328-329 | a second write of the same name fails and the first content stays |
| Documents.UpdateAbsent | server.js:353-354 | update of an absent name fails with NotFound and creates no file |
| Documents.UpdateEffect | server.js:346-369 | update of a present name replaces only that entry's content and keeps the set of names |
| Documents.DeleteTwice | server.js:371-394 | delete removes exactly the normalised name and keeps every other entry, so deleting it again fails with NotFound; an absent name fails and changes nothing |
| Documents.MarkdownOnly | server.js:278 | the filter keeps exactly the names that end in `.md` |
| Documents.MarkdownOnlyDistinct | server.js:277-278 | filtering a directory listing keeps every name at most once |
| Documents.DocumentNames | server.js:277-279 | the `.md` names of the directory listing in the default sort order; DocumentNamesSpec and ListingOrderIrrelevant carry its properties |
| Documents.DocumentNamesSpec | server.js:277-279 | listDocuments gives exactly the directory's `.md` names, each once, in ascending order |
| Documents.ListingOrderIrrelevant | server.js:277-279 | the list does not depend on the order in which the directory was read |
| Documents.Lines | server.js:407 | `content.split('\n')`; SplitPiecesLackSeparator, PieceOccurs and JoinSplit carry its properties |
| Documents.LineMatches | server.js:410 | `line.toLowerCase().includes(keyword.toLowerCase())`; LineMatchImpliesContentMatch and LineLacksBreakKeyword carry its properties |
| Documents.MatchesFrom | server.js:408-410 | the matching lines from index `i` on, numbered from 1; MatchesFromSound and MatchesFromComplete carry its properties |
| Documents.MatchesFromSound | server.js:408-410 | every match reported from line `i` on is a later line of the file, numbered from 1, with that line's text, and holds the keyword ignoring case; the line numbers increase strictly |
| Documents.MatchesFromComplete | server.js:408-410 | every line from `i` on that holds the keyword is reported |
| Documents.MatchingLines | server.js:407-411 | the first three matching lines of a file; MatchingLinesPrefix, MatchingLinesSound and MatchingLinesComplete carry its properties |
| Documents.MatchingLinesPrefix | server.js:411 | a file's matches are the first of all its matching lines, three at most |
| Documents.MatchingLinesSound | server.js:407-411 | each match names a line of the content (1-based, within the line count) holding the keyword ignoring case, with its text; line numbers increase strictly |
| Documents.MatchingLinesComplete | server.js:407-411 | no matching line is skipped before the last one reported, so a file with fewer than three matches has all of them |
| Documents.LineMatchImpliesContentMatch | server.js:406-410 | a line that holds the keyword makes the whole content hold it, so no matching line of a skipped file is lost |
| Documents.LineLacksBreakKeyword | server.js:410 | a line with no line break never matches a keyword that holds one, whatever the case |
| Documents.LineBreakKeywordMatchesNoLine | server.js:406-411 | for every content, a keyword holding a line break gets no matching lines, since no line of the split holds a line break |
| Documents.HitWithoutMatchingLine | server.js:406-411 | such a hit exists: the content "a\nb" holds the keyword "a\nb", so the file is reported, but with no matching lines |
| Documents.HitFor | server.js:406-417 | one file's iteration: its hit with its MatchingLines when its lowercased content holds the lowercased keyword, nothing otherwise; HitsSound and HitsComplete carry its properties |
| Documents.Hits | server.js:401-417 | the hits the loop pushes for `files`, in their order; HitsSound, HitsComplete and HitsOnce carry its properties |
| Documents.HitsSound | server.js:402-417 | the loop pushes a hit only for a listed file whose lowercased content holds the lowercased keyword, carrying that file's matching lines |
| Documents.HitsComplete | server.js:402-417 | every listed file whose lowercased content holds the lowercased keyword gets a hit |
| Documents.HitsOnce | server.js:402-417 | when no file is listed twice, no file gets two hits |
| Documents.HitsSpec | server.js:402-417 | the loop pushes a hit only for a file whose lowercased content holds the lowercased keyword, with its matching lines; every such file gets a hit; no file twice |
| Documents.Search | server.js:396-449 | searchDocuments over the `.md` files of the listing: the TypeError for an undefined keyword when there is a file, otherwise Found with the hits or NoResults; SearchSpec and SearchEmptyDirectory carry its properties |
| Documents.SearchSpec | server.js:396-429 | a string keyword never fails; the reply is either NoResults for that keyword, exactly when no `.md` file holds it, or Found listing exactly the `.md` files holding the keyword, each once with its matches |
| Documents.SearchEmptyDirectory | server.js:420-429 | a search of an empty directory gives NoResults, not an error, for any keyword |
| Text.StartsWith | server.js:516 | `s.startsWith(p)`: `p` is a prefix of `s` |
| Text.EndsWith | server.js:278 | `s.endsWith(x)`: `x` is a suffix of `s` |
| Text.Includes | server.js:406 | `s.includes(t)`, tried offset by offset; IncludesIffOccurs states its meaning |
| Text.Lower | server.js:406 | `toLowerCase`, character by character, for ASCII letters only (see "## Left out") |
| Text.IncludesIffOccurs | server.js:406 | `includes` holds exactly when the keyword occurs at some offset |
| Text.Split | server.js:407 | `content.split(sep)` for a one-character separator; JoinSplit, SplitJoin, SplitPiecesLackSeparator and PieceOccurs carry its properties |
| Text.JoinSplit | server.js:407 | the lines of a split, joined with line breaks, are the content |
| Text.SplitJoin | server.js:407 | splitting line-break-free lines joined with line breaks gives those lines back |
| Text.SplitPiecesLackSeparator | server.js:407 | no line of `content.split('\n')` holds a line break |
| Text.PieceOccurs | server.js:407 | every line of the split occurs in the content |
| Order.Below | server.js:279 | the order of the default `sort()` on strings, by character codes (see "## Left out"); BelowTransitive and BelowTotal carry its properties |
| Order.Sort | server.js:279 | the sort is a permutation of its input, in ascending string order |
| Order.BelowTransitive | server.js:279 | the string order is transitive |
| Order.BelowTotal | server.js:279 | any two different strings are ordered one way or the other |
| Order.SortedUnique | server.js:279 | sorted sequences of distinct names with the same names are equal |
| Tools.Catalog | server.js:148-236 | the six tools the ListTools handler lists, each with its declared and required arguments; CatalogWellFormed and ToolOfCatalog carry its properties |
| Tools.CatalogWellFormed | server.js:145-238 | the catalog has six tools with distinct names, and each required argument is a declared property |
| Tools.Prefix | server.js:317-447 | the prefix each operation's catch puts before the message (read, create, update, delete, search); OperationOfMessage carries its property |
| Tools.CauseMessage | server.js:304-379 | the message a store failure throws: not found, not found with the writeDocument hint for update, already exists with the updateDocument hint, or the TypeError; MessageNamesDocument carries its property |
| Tools.Message | server.js:260-447 | the message of any error the handler catches: the unknown-tool message, the TypeError of a missing `arguments`, or the operation's prefix before its cause; UnknownToolMessage, OperationOfMessage and MessageNamesDocument carry its properties |
| Tools.Caught | server.js:262-270 | the catch around a store step: a success becomes the reply, a failure its error text, and the directory is what the step left; RunFailure and DispatchFailureText carry its properties |
| Tools.ErrorText | server.js:262-270 | the text the catch block returns for an error; ErrorTextShape carries its properties |
| Tools.ErrorTextShape | server.js:262-270 | the error text starts with the message and ends with the documents path, so it contains both |
| Tools.OperationOfMessage | server.js:317-447 | the prefix of a store failure's message tells which operation failed |
| Tools.MessageNamesDocument | server.js:304-379 | a NotFound or AlreadyExists message names the normalised file |
| Tools.UnknownToolMessage | server.js:259-260 | the unknown-tool message repeats the name it was called with |
| Tools.Arg | server.js:250-258 | `args.<key>`: the string under that key, or none when it is missing or not a string, which Read, Write, Update, Delete and Search turn into their TypeError failure |
| Tools.ToolOf | server.js:246-261 | the case labels of the switch: the operation a tool name selects, none for any other name; ToolOfCatalog relates it to the catalog |
| Tools.Run | server.js:246-272 | one branch of the switch with the catch around it; RunFailure carries its properties |
| Tools.Dispatch | server.js:241-272 | the CallTool handler: an unknown name is rejected, a known one runs its branch; DispatchHandlesCatalog, DispatchFailureKeepsDocs, DispatchFailureText and DispatchList carry its properties |
| Tools.ToolOfCatalog | server.js:246-261 | a name has a case in the switch exactly when the tool list advertises it |
| Tools.DispatchHandlesCatalog | server.js:246-261 | the switch reports a name unknown exactly when the catalog does not list it |
| Tools.DispatchFailureKeepsDocs | server.js:241-272 | a failed call leaves the directory unchanged |
| Tools.DispatchFailureText | server.js:262-270 | every failure, an unknown tool included, is one text result made from the error message that contains the documents path; nothing is thrown |
| Tools.RunFailure | server.js:246-272 | when a branch of the switch fails, the directory is unchanged and the text is built from that error's message |
| Tools.DispatchList | server.js:247-248 | listDocuments ignores its arguments, changes nothing and returns the sorted `.md` names |
| Server.RoutePost | server.js:80-95 | the intended routing of `POST /messages`: 400 for a non-string id, 400 for an id without its own session, otherwise forwarding; RoutePostForwards carries its properties |
| Server.RoutePostAsWritten | server.js:88-94 | the routing as written, where an Object.prototype member name is found as a session and the handler crashes; PrototypeSessionIdCrashes and AsWrittenAgreesOffPrototype carry its properties |
| Server.RoutePostForwards | server.js:80-95 | a post is forwarded exactly when its session id is a string in the table, to that session's transport; otherwise it gets 400 |
| Server.PrototypeSessionIdCrashes | server.js:88-94 | as written, a post for session "toString" gets 500 where 400 is intended |
| Server.AsWrittenAgreesOffPrototype | server.js:88-94 | away from inherited property names the code as written routes as intended |
| Server.RouteAfterConnect | server.js:62 | a session just entered receives its messages |
| Server.RouteAfterClose | server.js:69-72 | after a close a session's posts are refused, and every other id is routed as before |
| Server.DocumentoryServer.constructor | server.js:13-27 | an empty or missing path falls back to the default documents folder; the session table starts empty |
| Server.DocumentoryServer.ReadDocument | server.js:296-319 | read returns the content of the normalised name, or NotFound, or a TypeError failure for a non-string name |
| Server.DocumentoryServer.WriteDocument | server.js:321-344 | the reply and the new directory are those of the write step |
| Server.DocumentoryServer.UpdateDocument | server.js:346-369 | the reply and the new directory are those of the update step |
| Server.DocumentoryServer.DeleteDocument | server.js:371-394 | the reply and the new directory are those of the delete step |
| Server.DocumentoryServer.ListDocuments | server.js:275-294 | the reply lists exactly the directory's `.md` names, each once, sorted |
| Server.DocumentoryServer.SearchDocuments | server.js:396-449 | the loop's reply is the search step's: the hits of the `.md` files in directory order, NoResults when none, a TypeError for an undefined keyword when there is a file to read |
| Server.DocumentoryServer.CallTool | server.js:241-272 | the result and the new directory are those of the switch; a failure changes nothing and its text contains the documents path |
| Server.DocumentoryServer.Connect | server.js:55-77 | the fresh id is entered with its transport; a close handler is registered only when connecting succeeds, otherwise the reply is 500 |
| Server.DocumentoryServer.Close | server.js:69-72 | the close handler removes only that id, and nothing happens if it has none |
| Server.DocumentoryServer.PostMessage | server.js:80-95 | a non-string id is invalid and an unknown id is not found (both 400); only a present id is forwarded, to its own transport |
| Cli.TrimStart | server.js:523 | exactly the leading JavaScript white space is removed |
| Cli.DigitPrefix | server.js:523 | the longest prefix of digits in the given base |
| Cli.ParseUnsigned | server.js:523 | parseInt after the sign: the longest digit prefix read in base 10, or base 16 after `0x`; none without digits |
| Cli.ParseSigned | server.js:523 | parseInt after the leading white space: an optional sign, then ParseUnsigned |
| Cli.ParseInt | server.js:523 | `parseInt(s)` without a radix: leading white space skipped, then ParseSigned; ParseIntDecimal, ParseIntIgnoresTrailing and ParseIntSkipsSpace carry its properties |
| Cli.ParseIntDecimal | server.js:523 | parsing a number's decimal numeral gives the number |
| Cli.ParseIntIgnoresTrailing | server.js:523 | characters after the numeral are ignored ("80abc" gives 80), unless 0 is followed by `x` |
| Cli.ParseUnsignedDecimal | server.js:523 | a decimal numeral followed by a non-digit reads as its number |
| Cli.ParseIntSkipsSpace | server.js:523 | leading white space does not change the parse |
| Cli.NonFlags | server.js:516 | the filter keeps exactly the arguments not starting with `--` |
| Cli.NonFlagsEmpty | server.js:516 | the filter keeps nothing exactly when every argument starts with `--` |
| Cli.NonFlagsFrom | server.js:516 | the filter keeps the arguments' order: the first argument not starting with `--` comes first, followed by what is kept of the arguments after it |
| Cli.ValidPort | server.js:524 | the port check: a number strictly between 0 and 65536, NaN excluded; ConfigPortInRange and ParseArgumentsPathAndPort carry its properties |
| Cli.ParseArguments | server.js:471-533 | parseArguments: Help for `--help` or `-h`, otherwise the docs path, port and development flag from the arguments, or the refused port argument; HelpWins, ParseArgumentsSpec and ConfigPortInRange carry its properties |
| Cli.HelpWins | server.js:474-506 | help is the result exactly when `--help` or `-h` is an argument, whatever else is present |
| Cli.ParseArgumentsNoPath | server.js:507-521 | without help, when every argument starts with `--` there is no docs path, the port is 3000, and devMode is whether `--dev` is present |
| Cli.ParseArgumentsPathOnly | server.js:507-521 | without help, when `args[i]` is the only argument not starting with `--`, it is the docs path and the port is 3000 |
| Cli.ParseArgumentsPathAndPort | server.js:507-532 | without help, when `args[i]` and `args[j]` are the first two arguments not starting with `--`, `args[i]` is the docs path; `args[j]` gives the port if it parses strictly between 0 and 65536 and is refused otherwise |
| Cli.ParseArgumentsSpec | server.js:507-532 | the three cases together, by position: no argument without `--` gives no path and port 3000; the first such argument is the path; a second such argument is the port when it parses strictly between 0 and 65536, and is refused otherwise |
| Cli.ConfigPortInRange | server.js:523-528 | every accepted configuration has a port strictly between 0 and 65536 |
| Cli.OtherFlagIgnored | server.js:516 | an argument starting with `--`, other than `--help` and `--dev`, changes nothing |
| Cli.PathAndPortRoundTrip | server.js:516-526 | a path and a port printed in decimal are read back as given |
| Cli.UsageWithoutPort | server.js:478-489 | no arguments give the defaults; a path alone gives that path and port 3000 |
| Cli.UsageWithPort | server.js:491 | `./docs 8080` gives that path and port 8080 |
| Scenarios.ListScenario | server.js:277-279 | a directory read as `b.md`, `a.md`, `c.txt` is listed as `a.md`, `b.md` |
| Scenarios.HitsOnly | server.js:402-417 | when exactly one file holds the keyword, the loop pushes exactly that file's hit |
| Scenarios.SearchOneMatch | server.js:396-429 | when exactly one `.md` file holds the keyword, the search reports that file alone |
| Scenarios.SearchScenario | server.js:396-429 | with `a.md` = "hello world" and `b.md` = "goodbye", searching "hello" reports `a.md` alone with line 1 as its match |

## Left out

- Express, CORS, body parsing, and the `/` and `/health` JSON endpoints. They are framework
  plumbing and static text with a timestamp.
- The MCP SDK: `Server`, the Initialize handler, `SSEServerTransport`, `server.connect`,
  `handlePostMessage` and how session ids are generated. The transport is a type
  parameter. A fresh id is a precondition of `Connect`, and connect's success is a parameter.
- Async execution and any interleaving of connections, closes, posts and tool calls. Every
  operation is one sequential step.
- File system I/O: `readdirSync`, `readFileSync`, `writeFileSync`, `unlinkSync`,
  `existsSync`, `ensureDocsFolder` and its fallback. The directory is the in-memory map,
  and its read order is the `listing` parameter. I/O failures are not modelled, so list and
  search never fail for an unreadable directory and the message prefix for a failed
  listing is absent. The directory is assumed to hold only regular files.
- `path.join` normalisation. Names such as `a/../b.md` that denote the same file are
  distinct keys here, and no containment guarantee is claimed (there is none in the code).
- Case-insensitive file systems, such as the Windows one of the help text's example. There
  `A.md` and `a.md` are one file, so the existence checks of write, update, read and
  delete see the other name's file. The model keeps them as two keys.
- The text of successful replies: emoji, Korean wording, the `• ` list lines and the
  `line.trim()` of search output. The model returns the structured `Reply` they are
  rendered from.
- The tool descriptions of the catalog. They are product copy.
- Tools.TypeErrorMessage: the JavaScript engine's TypeError wording is replaced by a
  stand-in that keeps only the parameter name.
- Text.Lower: only ASCII letters are lowercased; JavaScript's full Unicode `toLowerCase`
  is not modelled.
- Order.Below: compares by code point. JavaScript compares UTF-16 code units, which
  orders characters outside the Basic Multilingual Plane differently from U+E000–U+FFFF.
- Documents.Write and Documents.Update: the reported length is the number of code points.
  JavaScript's `content.length` counts UTF-16 code units.
- Documents.WriteThenRead: holds for well-formed strings only. A Dafny string holds Unicode
  scalar values, so it cannot carry a lone surrogate. A JSON tool argument can, and
  `fs.writeFileSync(..., 'utf8')` stores it as U+FFFD, so reading that file back does not
  return the string that was written.
- Cli.ParseInt: keeps the exact integer where JavaScript rounds a long numeral to a
  double. The rounding never moves a value across the port range's bounds.
- Help text, console logging, `process.exit`, signal handlers, the process-wide exception
  hooks and `main`. They are presentation and process control.
- `start`, `listen` and the port's use. The port is only carried through the constructor.

## Findings

| source | as written | input that shows it | evidently intended | confidence | as-written member | corrected member |
|---|---|---|---|---|---|---|
| server.js:88-94 | `this.transports[sessionId]` is looked up on a plain object, so ids such as `toString` or `__proto__` find an inherited member. That member passes `!transport`, `handlePostMessage` is then not a function, and the TypeError makes Express reply 500 | `POST /messages?sessionId=toString` with no such session | an id without a session of its own is answered 400 "session not found" | not executed | Server.PrototypeSessionIdCrashes | Server.DocumentoryServer.PostMessage |
