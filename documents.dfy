/**
 * The document directory as a value: a map from file name to content, and what each
 * document operation of the server returns and leaves behind when applied to it.
 * The server class applies these same steps in place (module Server).
 */
module Documents {
  import opened Wrappers
  import opened Text
  import opened Order

  /** The directory: file name to file content. */
  type Docs = map<string, string>

  /** The extension every document name is given. */
  const Suffix := ".md"

  /** At most this many matching lines are reported per file. */
  const MaxMatchesPerFile := 3

  /** Appends `.md` to a name that does not already end in it. */
  function Normalize(filename: string): (name: string)
    ensures EndsWith(name, Suffix)
    ensures name == filename || name == filename + Suffix
  {
    if EndsWith(filename, Suffix) then filename else filename + Suffix
  }

  /** A normalised name is left alone by a second normalisation. */
  lemma NormalizeIdempotent(filename: string)
    ensures Normalize(Normalize(filename)) == Normalize(filename)
  {
  }

  /** A name that already ends in `.md` is not changed. */
  lemma NormalizeKeepsSuffixed(filename: string)
    requires EndsWith(filename, Suffix)
    ensures Normalize(filename) == filename
  {
  }

  /** A name without `.md` denotes the same document as that name with `.md`. */
  lemma NormalizeSuffixOptional(filename: string)
    requires !EndsWith(filename, Suffix)
    ensures Normalize(filename) == Normalize(filename + Suffix) == filename + Suffix
  {
  }

  /** The operation a failure comes from; it chooses the wording of the error. */
  datatype Operation = ReadOp | WriteOp | UpdateOp | DeleteOp | SearchOp

  /** Why an operation threw. */
  datatype Cause =
    | NotFound(filename: string)       // the normalised name is not in the directory
    | AlreadyExists(filename: string)  // writeDocument refuses to overwrite
    | NotAString(parameter: string)    // a parameter was undefined or not a string (a TypeError)

  datatype Failure = Failure(op: Operation, cause: Cause)

  /** One matching line of a file: its 1-based line number and its text. */
  datatype Match = Match(lineNumber: nat, line: string)

  /** A file whose content holds the keyword, with its first matching lines. */
  datatype Hit = Hit(filename: string, matches: seq<Match>)

  /** What a successful operation reports (the text the server renders from it is left out). */
  datatype Reply =
    | Listing(names: seq<string>)
    | Document(filename: string, content: string)
    | Created(filename: string, length: nat)
    | Updated(filename: string, length: nat)
    | Deleted(filename: string)
    | NoResults(searched: Option<string>)
    | Found(keyword: string, hits: seq<Hit>)

  /** The reply or failure of an operation, with the directory it leaves. */
  datatype Step = Step(result: Result<Reply, Failure>, docs: Docs)

  // ---------------------------------------------------------------------------
  // readDocument, writeDocument, updateDocument, deleteDocument

  function Read(docs: Docs, filename: Option<string>): Result<Reply, Failure> {
    if filename.None? then Err(Failure(ReadOp, NotAString("filename")))
    else
      var name := Normalize(filename.value);
      if name !in docs then Err(Failure(ReadOp, NotFound(name)))
      else Ok(Document(name, docs[name]))
  }

  function Write(docs: Docs, filename: Option<string>, content: Option<string>): Step {
    if filename.None? then Step(Err(Failure(WriteOp, NotAString("filename"))), docs)
    else
      var name := Normalize(filename.value);
      if name in docs then Step(Err(Failure(WriteOp, AlreadyExists(name))), docs)
      else if content.None? then Step(Err(Failure(WriteOp, NotAString("content"))), docs)
      else Step(Ok(Created(name, |content.value|)), docs[name := content.value])
  }

  function Update(docs: Docs, filename: Option<string>, content: Option<string>): Step {
    if filename.None? then Step(Err(Failure(UpdateOp, NotAString("filename"))), docs)
    else
      var name := Normalize(filename.value);
      if name !in docs then Step(Err(Failure(UpdateOp, NotFound(name))), docs)
      else if content.None? then Step(Err(Failure(UpdateOp, NotAString("content"))), docs)
      else Step(Ok(Updated(name, |content.value|)), docs[name := content.value])
  }

  function Delete(docs: Docs, filename: Option<string>): Step {
    if filename.None? then Step(Err(Failure(DeleteOp, NotAString("filename"))), docs)
    else
      var name := Normalize(filename.value);
      if name !in docs then Step(Err(Failure(DeleteOp, NotFound(name))), docs)
      else Step(Ok(Deleted(name)), docs - {name})
  }

  /** Every failing write, update or delete leaves the directory as it was. */
  lemma FailureChangesNothing(docs: Docs, filename: Option<string>, content: Option<string>)
    ensures Write(docs, filename, content).result.Err? ==> Write(docs, filename, content).docs == docs
    ensures Update(docs, filename, content).result.Err? ==> Update(docs, filename, content).docs == docs
    ensures Delete(docs, filename).result.Err? ==> Delete(docs, filename).docs == docs
  {
  }

  /**
   * writeDocument refuses an existing name and leaves the directory alone; otherwise it
   * adds exactly that name with the given content and keeps every other entry.
   */
  lemma WriteEffect(docs: Docs, filename: string, content: string)
    ensures var name, s := Normalize(filename), Write(docs, Some(filename), Some(content));
      && (name in docs ==> s.result == Err(Failure(WriteOp, AlreadyExists(name))) && s.docs == docs)
      && (name !in docs ==>
            && s.result == Ok(Created(name, |content|))
            && s.docs.Keys == docs.Keys + {name}
            && s.docs[name] == content
            && forall k :: k in docs ==> s.docs[k] == docs[k])
  {
  }

  /** Reading a name right after writing it returns exactly the written content. */
  lemma WriteThenRead(docs: Docs, filename: string, content: string)
    requires Normalize(filename) !in docs
    ensures Read(Write(docs, Some(filename), Some(content)).docs, Some(filename))
         == Ok(Document(Normalize(filename), content))
  {
  }

  /** A second write of the same name fails and the first content stays. */
  lemma WriteTwice(docs: Docs, filename: string, first: string, second: string)
    requires Normalize(filename) !in docs
    ensures var once := Write(docs, Some(filename), Some(first)).docs;
      && Write(once, Some(filename), Some(second)).result.Err?
      && Write(once, Some(filename), Some(second)).docs[Normalize(filename)] == first
  {
  }

  /** updateDocument of an absent name fails and creates no file. */
  lemma UpdateAbsent(docs: Docs, filename: string, content: string)
    requires Normalize(filename) !in docs
    ensures Update(docs, Some(filename), Some(content))
         == Step(Err(Failure(UpdateOp, NotFound(Normalize(filename)))), docs)
  {
  }

  /** updateDocument of a present name replaces that content and nothing else. */
  lemma UpdateEffect(docs: Docs, filename: string, content: string)
    requires Normalize(filename) in docs
    ensures var name, s := Normalize(filename), Update(docs, Some(filename), Some(content));
      && s.result == Ok(Updated(name, |content|))
      && s.docs.Keys == docs.Keys
      && s.docs[name] == content
      && forall k :: k in docs && k != name ==> s.docs[k] == docs[k]
  {
  }

  /**
   * deleteDocument removes exactly the normalised name, so deleting it again fails with
   * NotFound; an absent name fails and changes nothing.
   */
  lemma DeleteTwice(docs: Docs, filename: string)
    ensures var name, s := Normalize(filename), Delete(docs, Some(filename));
      && (name !in docs ==> s == Step(Err(Failure(DeleteOp, NotFound(name))), docs))
      && (name in docs ==>
            && s.result == Ok(Deleted(name))
            && s.docs.Keys == docs.Keys - {name}
            && (forall k :: k in s.docs ==> s.docs[k] == docs[k])
            && Delete(s.docs, Some(filename)) == Step(Err(Failure(DeleteOp, NotFound(name))), s.docs))
  {
  }

  /** Each operation treats `f` and `f + ".md"` alike when `f` lacks the extension. */
  lemma SuffixOptional(docs: Docs, filename: string, content: Option<string>)
    requires !EndsWith(filename, Suffix)
    ensures Read(docs, Some(filename)) == Read(docs, Some(filename + Suffix))
    ensures Write(docs, Some(filename), content) == Write(docs, Some(filename + Suffix), content)
    ensures Update(docs, Some(filename), content) == Update(docs, Some(filename + Suffix), content)
    ensures Delete(docs, Some(filename)) == Delete(docs, Some(filename + Suffix))
  {
    NormalizeSuffixOptional(filename);
  }

  // ---------------------------------------------------------------------------
  // The directory listing and listDocuments

  /** `listing` is what reading the directory gives: each file name once, in some order. */
  ghost predicate IsListingOf(listing: seq<string>, docs: Docs) {
    Distinct(listing) && forall k :: k in listing <==> k in docs
  }

  /** `names.filter(file => file.endsWith('.md'))` */
  function MarkdownOnly(names: seq<string>): (r: seq<string>)
    ensures forall y :: y in r <==> y in names && EndsWith(y, Suffix)
    decreases |names|
  {
    if names == [] then []
    else
      var rest := MarkdownOnly(names[1..]);
      assert names == [names[0]] + names[1..];
      if EndsWith(names[0], Suffix) then [names[0]] + rest else rest
  }

  lemma {:induction false} MarkdownOnlyDistinct(names: seq<string>)
    requires Distinct(names)
    ensures Distinct(MarkdownOnly(names))
    decreases |names|
  {
    if names != [] {
      MarkdownOnlyDistinct(names[1..]);
      assert names[0] !in names[1..];
    }
  }

  /** The names listDocuments reports: the `.md` entries, sorted. */
  function DocumentNames(listing: seq<string>): seq<string> {
    Sort(MarkdownOnly(listing))
  }

  /**
   * listDocuments returns exactly the `.md` names of the directory, each once and in
   * ascending order, whatever order the directory was read in.
   */
  lemma DocumentNamesSpec(listing: seq<string>, docs: Docs)
    requires IsListingOf(listing, docs)
    ensures var names := DocumentNames(listing);
      && Sorted(names)
      && Distinct(names)
      && forall k :: k in names <==> k in docs && EndsWith(k, Suffix)
  {
    MarkdownOnlyDistinct(listing);
    SortDistinct(MarkdownOnly(listing));
  }

  lemma ListingOrderIrrelevant(listing: seq<string>, other: seq<string>, docs: Docs)
    requires IsListingOf(listing, docs) && IsListingOf(other, docs)
    ensures DocumentNames(listing) == DocumentNames(other)
  {
    DocumentNamesSpec(listing, docs);
    DocumentNamesSpec(other, docs);
    SortedUnique(DocumentNames(listing), DocumentNames(other));
  }

  // ---------------------------------------------------------------------------
  // searchDocuments

  /** `content.split('\n')` */
  function Lines(content: string): seq<string> {
    Split(content, '\n')
  }

  /** `line.toLowerCase().includes(keyword.toLowerCase())` */
  predicate LineMatches(line: string, keyword: string) {
    Includes(Lower(line), Lower(keyword))
  }

  /**
   * `lines.map((line, index) => ({ line, lineNumber: index + 1 })).filter(...)`, from
   * index `i` on: the matching lines among `lines[i..]`, numbered from 1, in order.
   */
  function MatchesFrom(lines: seq<string>, keyword: string, i: nat): seq<Match>
    requires i <= |lines|
    decreases |lines| - i
  {
    if i == |lines| then []
    else if LineMatches(lines[i], keyword) then [Match(i + 1, lines[i])] + MatchesFrom(lines, keyword, i + 1)
    else MatchesFrom(lines, keyword, i + 1)
  }

  /** Match `m` reports line `m.lineNumber` of `lines`, a line after `i` that holds the keyword. */
  predicate ReportsLineAfter(m: Match, lines: seq<string>, keyword: string, i: nat) {
    && i < m.lineNumber <= |lines|
    && m.line == lines[m.lineNumber - 1]
    && LineMatches(m.line, keyword)
  }

  /** Line numbers strictly increase along `r`. */
  predicate Ascending(r: seq<Match>) {
    forall k, l :: 0 <= k < l < |r| ==> r[k].lineNumber < r[l].lineNumber
  }

  /** Every match reported is a true matching line after `i`, and the line numbers increase. */
  lemma {:induction false} MatchesFromSound(lines: seq<string>, keyword: string, i: nat)
    requires i <= |lines|
    ensures forall k :: 0 <= k < |MatchesFrom(lines, keyword, i)| ==>
      ReportsLineAfter(MatchesFrom(lines, keyword, i)[k], lines, keyword, i)
    ensures Ascending(MatchesFrom(lines, keyword, i))
    decreases |lines| - i
  {
    if i < |lines| {
      MatchesFromSound(lines, keyword, i + 1);
      var r, rest := MatchesFrom(lines, keyword, i), MatchesFrom(lines, keyword, i + 1);
      forall k | 0 <= k < |r| ensures ReportsLineAfter(r[k], lines, keyword, i) {
        if LineMatches(lines[i], keyword) && k > 0 {
          assert r[k] == rest[k - 1] && ReportsLineAfter(rest[k - 1], lines, keyword, i + 1);
        } else if !LineMatches(lines[i], keyword) {
          assert r[k] == rest[k] && ReportsLineAfter(rest[k], lines, keyword, i + 1);
        }
      }
      if LineMatches(lines[i], keyword) {
        forall k, l | 0 <= k < l < |r| ensures r[k].lineNumber < r[l].lineNumber {
          assert r[l] == rest[l - 1] && ReportsLineAfter(rest[l - 1], lines, keyword, i + 1);
          if k > 0 {
            assert r[k] == rest[k - 1];
          }
        }
      }
    }
  }

  /** Every matching line after `i` is reported. */
  lemma {:induction false} MatchesFromComplete(lines: seq<string>, keyword: string, i: nat, j: nat)
    requires i <= j < |lines| && LineMatches(lines[j], keyword)
    ensures exists k :: 0 <= k < |MatchesFrom(lines, keyword, i)| && MatchesFrom(lines, keyword, i)[k].lineNumber == j + 1
    decreases |lines| - i
  {
    var r := MatchesFrom(lines, keyword, i);
    if j == i {
      assert r[0].lineNumber == j + 1;
    } else {
      MatchesFromComplete(lines, keyword, i + 1, j);
      var rest := MatchesFrom(lines, keyword, i + 1);
      var k :| 0 <= k < |rest| && rest[k].lineNumber == j + 1;
      if LineMatches(lines[i], keyword) {
        assert r[k + 1] == rest[k];
      } else {
        assert r[k] == rest[k];
      }
    }
  }

  /**
   * The lines of `content` that hold `keyword` (ignoring ASCII case), numbered from 1,
   * cut to the first three by `.slice(0, 3)`.
   */
  function MatchingLines(content: string, keyword: string): seq<Match> {
    var all := MatchesFrom(Lines(content), keyword, 0);
    if |all| <= MaxMatchesPerFile then all else all[..MaxMatchesPerFile]
  }

  /** The matches kept for a file are the first of all its matches, three at most. */
  lemma MatchingLinesPrefix(content: string, keyword: string)
    ensures |MatchingLines(content, keyword)| <= MaxMatchesPerFile
    ensures MatchingLines(content, keyword) <= MatchesFrom(Lines(content), keyword, 0)
  {
  }

  /**
   * Each match of a file names a line of the content, numbered from 1, that holds the
   * keyword ignoring case, with that line's text; the line numbers strictly increase.
   */
  lemma MatchingLinesSound(content: string, keyword: string)
    ensures forall k :: 0 <= k < |MatchingLines(content, keyword)| ==>
      ReportsLineAfter(MatchingLines(content, keyword)[k], Lines(content), keyword, 0)
    ensures Ascending(MatchingLines(content, keyword))
  {
    var all := MatchesFrom(Lines(content), keyword, 0);
    var r := MatchingLines(content, keyword);
    MatchesFromSound(Lines(content), keyword, 0);
    MatchingLinesPrefix(content, keyword);
    assert forall k :: 0 <= k < |r| ==> r[k] == all[k];
  }

  /**
   * No matching line is skipped up to the last one reported: with fewer than three
   * matches every matching line of the content is there.
   */
  lemma MatchingLinesComplete(content: string, keyword: string, j: nat)
    requires j < |Lines(content)| && LineMatches(Lines(content)[j], keyword)
    requires |MatchingLines(content, keyword)| < MaxMatchesPerFile
      || j < MatchingLines(content, keyword)[|MatchingLines(content, keyword)| - 1].lineNumber
    ensures exists k :: 0 <= k < |MatchingLines(content, keyword)| && MatchingLines(content, keyword)[k].lineNumber == j + 1
  {
    var lines := Lines(content);
    var all := MatchesFrom(lines, keyword, 0);
    var r := MatchingLines(content, keyword);
    MatchesFromSound(lines, keyword, 0);
    MatchingLinesPrefix(content, keyword);
    MatchesFromComplete(lines, keyword, 0, j);
    var k :| 0 <= k < |all| && all[k].lineNumber == j + 1;
    if |r| < MaxMatchesPerFile {
      assert r == all;
    } else {
      assert all[k].lineNumber <= all[|r| - 1].lineNumber;
    }
    assert r[k] == all[k];
  }

  /** A line that matches the keyword makes the whole content match it. */
  lemma LineMatchImpliesContentMatch(content: string, keyword: string, j: nat)
    requires j < |Lines(content)| && LineMatches(Lines(content)[j], keyword)
    ensures Includes(Lower(content), Lower(keyword))
  {
    var line := Lines(content)[j];
    PieceOccurs(content, '\n', j);
    OccursLower(content, line);
    IncludesIffOccurs(Lower(line), Lower(keyword));
    OccursTransitive(Lower(content), Lower(line), Lower(keyword));
    IncludesIffOccurs(Lower(content), Lower(keyword));
  }

  /** A line without a line break never holds a keyword with one, whatever the case. */
  lemma LineLacksBreakKeyword(line: string, keyword: string)
    requires '\n' !in line && '\n' in keyword
    ensures !LineMatches(line, keyword)
  {
    var k :| 0 <= k < |keyword| && keyword[k] == '\n';
    var low, key := Lower(line), Lower(keyword);
    IncludesIffOccurs(low, key);
    forall i ensures !OccursAt(low, key, i) {
      if 0 <= i <= |low| - |key| {
        assert line[i + k] in line;
        assert low[i..i + |key|][k] == low[i + k] != '\n';
      }
    }
  }

  /** No match from `i` on when no line from `i` on matches. */
  lemma {:induction false} MatchesFromNone(lines: seq<string>, keyword: string, i: nat)
    requires i <= |lines|
    requires forall j :: i <= j < |lines| ==> !LineMatches(lines[j], keyword)
    ensures MatchesFrom(lines, keyword, i) == []
    decreases |lines| - i
  {
    if i < |lines| {
      MatchesFromNone(lines, keyword, i + 1);
    }
  }

  /**
   * The converse fails: a keyword that spans a line break matches no line, since the
   * split at line breaks leaves none inside a line. A file whose content holds such a
   * keyword is therefore reported with no matching lines.
   */
  lemma LineBreakKeywordMatchesNoLine(content: string, keyword: string)
    requires '\n' in keyword
    ensures MatchingLines(content, keyword) == []
  {
    var lines := Lines(content);
    SplitPiecesLackSeparator(content, '\n');
    forall j | 0 <= j < |lines| ensures !LineMatches(lines[j], keyword) {
      LineLacksBreakKeyword(lines[j], keyword);
    }
    MatchesFromNone(lines, keyword, 0);
  }

  /** Such a hit exists: the content "a\nb" holds the keyword "a\nb" but no line of it does. */
  lemma HitWithoutMatchingLine()
    ensures Includes(Lower("a\nb"), Lower("a\nb"))
    ensures MatchingLines("a\nb", "a\nb") == []
  {
    assert OccursAt(Lower("a\nb"), Lower("a\nb"), 0);
    IncludesIffOccurs(Lower("a\nb"), Lower("a\nb"));
    assert "a\nb"[1] == '\n';
    LineBreakKeywordMatchesNoLine("a\nb", "a\nb");
  }

  /** The hit for one file, when its content holds the keyword. */
  function HitFor(docs: Docs, file: string, keyword: string): seq<Hit>
    requires file in docs
  {
    if Includes(Lower(docs[file]), Lower(keyword))
    then [Hit(file, MatchingLines(docs[file], keyword))]
    else []
  }

  /** The hits of the loop over `files`, pushed in the order the files come. */
  function Hits(docs: Docs, files: seq<string>, keyword: string): seq<Hit>
    requires forall f :: f in files ==> f in docs
    decreases |files|
  {
    if files == [] then []
    else
      var init := files[..|files| - 1];
      assert forall f :: f in init ==> f in files;
      Hits(docs, init, keyword) + HitFor(docs, files[|files| - 1], keyword)
  }

  /** One more iteration of the loop adds the hit, if any, of the next file. */
  lemma HitsStep(docs: Docs, files: seq<string>, i: nat, keyword: string)
    requires forall f :: f in files ==> f in docs
    requires i < |files|
    ensures Hits(docs, files[..i + 1], keyword) == Hits(docs, files[..i], keyword) + HitFor(docs, files[i], keyword)
  {
    assert files[..i + 1][..i] == files[..i];
  }

  /** `h` reports a file of `files` whose content holds the keyword, with its matching lines. */
  ghost predicate ReportsFile(h: Hit, docs: Docs, files: seq<string>, keyword: string) {
    && h.filename in files
    && h.filename in docs
    && Includes(Lower(docs[h.filename]), Lower(keyword))
    && h.matches == MatchingLines(docs[h.filename], keyword)
  }

  /** Every hit reports a file of `files` whose content holds the keyword. */
  ghost predicate AllReportFiles(hits: seq<Hit>, docs: Docs, files: seq<string>, keyword: string) {
    forall i :: 0 <= i < |hits| ==> ReportsFile(hits[i], docs, files, keyword)
  }

  /** Every file of `files` whose content holds the keyword has a hit. */
  ghost predicate CoversFiles(hits: seq<Hit>, docs: Docs, files: seq<string>, keyword: string) {
    forall f :: f in files && f in docs && Includes(Lower(docs[f]), Lower(keyword)) ==>
      exists i :: 0 <= i < |hits| && hits[i].filename == f
  }

  /** No file has two hits. */
  ghost predicate NamesOnce(hits: seq<Hit>) {
    forall i, j :: 0 <= i < j < |hits| ==> hits[i].filename != hits[j].filename
  }

  /** Each hit of the loop reports a file of `files` whose content holds the keyword. */
  lemma {:induction false} HitsSound(docs: Docs, files: seq<string>, keyword: string)
    requires forall f :: f in files ==> f in docs
    ensures AllReportFiles(Hits(docs, files, keyword), docs, files, keyword)
    decreases |files|
  {
    if files != [] {
      var init := files[..|files| - 1];
      assert forall f :: f in init ==> f in files;
      HitsSound(docs, init, keyword);
      var before := Hits(docs, init, keyword);
      var hits := Hits(docs, files, keyword);
      forall i | 0 <= i < |hits| ensures ReportsFile(hits[i], docs, files, keyword) {
        if i < |before| {
          assert hits[i] == before[i] && ReportsFile(before[i], docs, init, keyword);
        }
      }
    }
  }

  /** Every file of `files` whose content holds the keyword gets a hit. */
  lemma {:induction false} HitsComplete(docs: Docs, files: seq<string>, keyword: string)
    requires forall f :: f in files ==> f in docs
    ensures CoversFiles(Hits(docs, files, keyword), docs, files, keyword)
    decreases |files|
  {
    if files != [] {
      var last := files[|files| - 1];
      var init := files[..|files| - 1];
      assert files == init + [last];
      assert forall f :: f in init ==> f in files;
      HitsComplete(docs, init, keyword);
      var before := Hits(docs, init, keyword);
      var hits := Hits(docs, files, keyword);
      forall f | f in files && f in docs && Includes(Lower(docs[f]), Lower(keyword))
        ensures exists i :: 0 <= i < |hits| && hits[i].filename == f
      {
        if f == last {
          assert hits[|before|].filename == f;
        } else {
          assert f in init;
          var i :| 0 <= i < |before| && before[i].filename == f;
          assert hits[i] == before[i];
        }
      }
    }
  }

  /** A file listed once gets at most one hit. */
  lemma {:induction false} HitsOnce(docs: Docs, files: seq<string>, keyword: string)
    requires forall f :: f in files ==> f in docs
    requires Distinct(files)
    ensures NamesOnce(Hits(docs, files, keyword))
    decreases |files|
  {
    if files != [] {
      var last := files[|files| - 1];
      var init := files[..|files| - 1];
      assert files == init + [last];
      assert forall f :: f in init ==> f in files;
      HitsOnce(docs, init, keyword);
      HitsSound(docs, init, keyword);
      var before := Hits(docs, init, keyword);
      var hits := Hits(docs, files, keyword);
      assert last !in init;
      forall i, j | 0 <= i < j < |hits| ensures hits[i].filename != hits[j].filename {
        if j >= |before| {
          assert hits[i] == before[i] && ReportsFile(before[i], docs, init, keyword);
        } else {
          assert hits[i] == before[i] && hits[j] == before[j];
        }
      }
    }
  }

  /**
   * The loop reports exactly the files of `files` whose content holds the keyword: each
   * hit is such a file, with its matching lines, and each such file has a hit; a file
   * comes up once when `files` holds no name twice.
   */
  lemma HitsSpec(docs: Docs, files: seq<string>, keyword: string)
    requires forall f :: f in files ==> f in docs
    ensures AllReportFiles(Hits(docs, files, keyword), docs, files, keyword)
    ensures CoversFiles(Hits(docs, files, keyword), docs, files, keyword)
    ensures Distinct(files) ==> NamesOnce(Hits(docs, files, keyword))
  {
    HitsSound(docs, files, keyword);
    HitsComplete(docs, files, keyword);
    if Distinct(files) {
      HitsOnce(docs, files, keyword);
    }
  }

  /** searchDocuments over the directory read as `listing`. */
  function Search(docs: Docs, listing: seq<string>, keyword: Option<string>): Result<Reply, Failure>
    requires forall f :: f in listing ==> f in docs
  {
    var files := MarkdownOnly(listing);
    if keyword.None? then
      // The first file the loop reads calls toLowerCase on the keyword and throws.
      if files == [] then Ok(NoResults(keyword)) else Err(Failure(SearchOp, NotAString("keyword")))
    else
      var hits := Hits(docs, files, keyword.value);
      if hits == [] then Ok(NoResults(keyword)) else Ok(Found(keyword.value, hits))
  }

  /**
   * A string keyword never makes the search fail. The files reported are exactly the
   * `.md` files whose lowercased content holds the lowercased keyword, each once, and
   * each with its MatchingLines; the reply is Found with them, or NoResults for the keyword
   * when there are none.
   */
  lemma SearchSpec(docs: Docs, listing: seq<string>, keyword: string)
    requires IsListingOf(listing, docs)
    ensures var r := Search(docs, listing, Some(keyword));
      && r.Ok?
      && (r.value == NoResults(Some(keyword)) || r.value.Found?)
      && (r.value.NoResults? <==>
            forall f :: f in docs && EndsWith(f, Suffix) ==> !Includes(Lower(docs[f]), Lower(keyword)))
      && (r.value.Found? ==>
            && r.value.keyword == keyword
            && (forall i :: 0 <= i < |r.value.hits| ==>
                  var h := r.value.hits[i];
                  && h.filename in docs
                  && EndsWith(h.filename, Suffix)
                  && Includes(Lower(docs[h.filename]), Lower(keyword))
                  && h.matches == MatchingLines(docs[h.filename], keyword))
            && (forall f :: f in docs && EndsWith(f, Suffix) && Includes(Lower(docs[f]), Lower(keyword)) ==>
                  exists i :: 0 <= i < |r.value.hits| && r.value.hits[i].filename == f)
            && (forall i, j :: 0 <= i < j < |r.value.hits| ==>
                  r.value.hits[i].filename != r.value.hits[j].filename))
  {
    var files := MarkdownOnly(listing);
    MarkdownOnlyDistinct(listing);
    HitsSpec(docs, files, keyword);
    var hits := Hits(docs, files, keyword);
    if hits != [] {
      assert ReportsFile(hits[0], docs, files, keyword);
    }
  }

  /** With no files at all, any keyword gives NoResults, never an error. */
  lemma SearchEmptyDirectory(keyword: Option<string>)
    ensures Search(map[], [], keyword) == Ok(NoResults(keyword))
  {
  }
}
