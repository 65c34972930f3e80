/** Two worked examples of the document operations, on small concrete directories. */
module Scenarios {
  import opened Wrappers
  import opened Text
  import opened Order
  import opened Documents

  /**
   * A directory holding `b.md`, `a.md` and `c.txt`, read in that order, is listed as
   * `a.md` then `b.md`: sorted, and without the file that is not Markdown.
   */
  lemma ListScenario()
    ensures DocumentNames(["b.md", "a.md", "c.txt"]) == ["a.md", "b.md"]
  {
    var listing := ["b.md", "a.md", "c.txt"];
    assert EndsWith("a.md", Suffix) && EndsWith("b.md", Suffix);
    assert "c.txt"[2..] != Suffix by {
      assert "c.txt"[2..][0] == 't';
    }
    assert MarkdownOnly(listing[2..]) == [];
    assert MarkdownOnly(listing[1..]) == ["a.md"];
    assert MarkdownOnly(listing) == ["b.md", "a.md"];
    var files := ["b.md", "a.md"];
    assert files[1..] == ["a.md"] && files[1..][1..] == [];
    assert Sort(files[1..]) == ["a.md"];
    assert Below("a.md", "b.md");
    assert Insert("b.md", ["a.md"]) == ["a.md"] + Insert("b.md", []);
  }

  /** A line without a line break is the only line of its text. */
  lemma SingleLine(s: string)
    requires '\n' !in s
    ensures Lines(s) == [s]
  {
    SplitJoin([s], '\n');
  }

  /** "hello world" holds "hello", on its first and only line. */
  lemma HelloWorldMatches()
    ensures Includes(Lower("hello world"), Lower("hello"))
    ensures MatchingLines("hello world", "hello") == [Match(1, "hello world")]
  {
    assert Lower("hello world") == "hello world";
    assert Lower("hello") == "hello";
    assert "hello world"[..5] == "hello";
    SingleLine("hello world");
    assert MatchesFrom(["hello world"], "hello", 1) == [];
  }

  /** "goodbye" does not hold "hello". */
  lemma GoodbyeLacksHello()
    ensures !Includes(Lower("goodbye"), Lower("hello"))
  {
    var g := "goodbye";
    assert Lower(g) == g;
    assert Lower("hello") == "hello";
    assert g[..5][0] != "hello"[0];
    assert g[1..][..5][0] != "hello"[0];
    assert g[1..][1..][..5][0] != "hello"[0];
    assert |g[1..][1..][1..]| < 5;
  }

  /** The loop finds nothing among files none of which holds the keyword. */
  lemma {:induction false} HitsNone(docs: Docs, files: seq<string>, keyword: string)
    requires forall g :: g in files ==> g in docs && !Includes(Lower(docs[g]), Lower(keyword))
    ensures Hits(docs, files, keyword) == []
    decreases |files|
  {
    if files != [] {
      HitsNone(docs, files[..|files| - 1], keyword);
    }
  }

  /** The loop finds exactly `f` when `f` is the one file of `files` holding the keyword. */
  lemma {:induction false} HitsOnly(docs: Docs, files: seq<string>, keyword: string, f: string)
    requires Distinct(files) && f in files
    requires forall g :: g in files ==> g in docs
    requires Includes(Lower(docs[f]), Lower(keyword))
    requires forall g :: g in files && g != f ==> !Includes(Lower(docs[g]), Lower(keyword))
    ensures Hits(docs, files, keyword) == [Hit(f, MatchingLines(docs[f], keyword))]
    decreases |files|
  {
    var init, last := files[..|files| - 1], files[|files| - 1];
    assert files == init + [last];
    if last == f {
      assert f !in init;
      HitsNone(docs, init, keyword);
    } else {
      assert f in init;
      HitsOnly(docs, init, keyword, f);
    }
  }

  /** When exactly one Markdown file holds the keyword, the search reports that file alone. */
  lemma SearchOneMatch(docs: Docs, listing: seq<string>, keyword: string, f: string)
    requires IsListingOf(listing, docs)
    requires f in docs && EndsWith(f, Suffix) && Includes(Lower(docs[f]), Lower(keyword))
    requires forall g :: g in docs && EndsWith(g, Suffix) && g != f ==> !Includes(Lower(docs[g]), Lower(keyword))
    ensures Search(docs, listing, Some(keyword)) == Ok(Found(keyword, [Hit(f, MatchingLines(docs[f], keyword))]))
  {
    MarkdownOnlyDistinct(listing);
    HitsOnly(docs, MarkdownOnly(listing), keyword, f);
  }

  /**
   * With `a.md` holding "hello world" and `b.md` holding "goodbye", searching for "hello"
   * reports `a.md` alone, with its first line as the one match, whatever order the
   * directory is read in.
   */
  lemma SearchScenario(listing: seq<string>)
    requires IsListingOf(listing, map["a.md" := "hello world", "b.md" := "goodbye"])
    ensures Search(map["a.md" := "hello world", "b.md" := "goodbye"], listing, Some("hello"))
         == Ok(Found("hello", [Hit("a.md", [Match(1, "hello world")])]))
  {
    var docs := map["a.md" := "hello world", "b.md" := "goodbye"];
    assert Includes(Lower(docs["a.md"]), Lower("hello")) by {
      HelloWorldMatches();
    }
    assert forall g :: g in docs && EndsWith(g, Suffix) && g != "a.md" ==> !Includes(Lower(docs[g]), Lower("hello")) by {
      GoodbyeLacksHello();
    }
    assert EndsWith("a.md", Suffix);
    SearchOneMatch(docs, listing, "hello", "a.md");
    assert MatchingLines(docs["a.md"], "hello") == [Match(1, "hello world")] by {
      HelloWorldMatches();
    }
  }
}
