/**
 * convert_to_markdown, the same in both scrapers: a "# title" header, three
 * "- **label**: value" metadata lines, a "---" separator, then one piece per
 * body element by kind; the pieces are joined with newlines.
 */
module Markdown {
  import opened Wrappers
  import opened PyStr
  import opened Article

  const DATE_LABEL := "- **发布日期**: "
  const AUTHOR_LABEL := "- **作者**: "
  const LINK_LABEL := "- **原文链接**: "
  const RULE := "---"

  /** The five pieces every article starts with. */
  function HeaderPieces(a: ArticleData): seq<string> {
    ["# " + a.title + "\n", DATE_LABEL + a.date, AUTHOR_LABEL + a.author, LINK_LABEL + a.url + "\n", RULE + "\n"]
  }

  /** The piece one content element contributes: none for a kind other than text, image and quote. */
  function PieceOf(e: ContentElement): seq<string> {
    match e.kind
    case Text => [e.content + "\n"]
    case Image => ["![图片](" + e.content + ")\n"]
    case Quote => ["> " + e.content + "\n"]
    case Other(_) => []
  }

  function BodyPieces(elements: seq<ContentElement>): seq<string> {
    if elements == [] then []
    else BodyPieces(elements[..|elements| - 1]) + PieceOf(elements[|elements| - 1])
  }

  /** "\n".join(markdown_content) */
  function MarkdownText(a: ArticleData): string {
    Join("\n", HeaderPieces(a) + BodyPieces(a.elements))
  }

  /** convert_to_markdown(article_data): None for missing data, the joined pieces otherwise. */
  method ConvertToMarkdown(data: Option<ArticleData>) returns (markdown: Option<string>)
    ensures data.None? <==> markdown.None?
    ensures data.Some? ==> markdown == Some(MarkdownText(data.value))
  {
    if data.None? {
      return None;
    }
    var a := data.value;
    var pieces: seq<string> := [];
    pieces := pieces + ["# " + a.title + "\n"];
    pieces := pieces + [DATE_LABEL + a.date];
    pieces := pieces + [AUTHOR_LABEL + a.author];
    pieces := pieces + [LINK_LABEL + a.url + "\n"];
    pieces := pieces + [RULE + "\n"];
    for i := 0 to |a.elements|
      invariant pieces == HeaderPieces(a) + BodyPieces(a.elements[..i])
    {
      assert a.elements[..i + 1][..i] == a.elements[..i];
      var e := a.elements[i];
      match e.kind
      case Text =>
        pieces := pieces + [e.content + "\n"];
      case Image =>
        pieces := pieces + ["![图片](" + e.content + ")\n"];
      case Quote =>
        pieces := pieces + ["> " + e.content + "\n"];
      case Other(_) =>
    }
    assert a.elements[..|a.elements|] == a.elements;
    markdown := Some(Join("\n", pieces));
  }

  predicate Recognized(k: Kind) {
    k == Text || k == Image || k == Quote
  }

  /** The number of elements of a kind convert_to_markdown knows. */
  function RecognizedCount(elements: seq<ContentElement>): nat {
    if elements == [] then 0
    else RecognizedCount(elements[..|elements| - 1]) + (if Recognized(elements[|elements| - 1].kind) then 1 else 0)
  }

  /** Five header pieces, then exactly one piece per recognised element. */
  lemma {:induction false} PieceCount(elements: seq<ContentElement>)
    ensures |BodyPieces(elements)| == RecognizedCount(elements)
    decreases |elements|
  {
    if elements != [] {
      PieceCount(elements[..|elements| - 1]);
    }
  }

  /** An article read from a page has a body piece for every element the filter kept. */
  lemma ScrapedPieceCount(body: seq<HtmlElement>)
    ensures RecognizedCount(ContentElements(body)) == |ContentElements(body)|
  {
    ContentElementsNonBlank(body);
    AllRecognizedCount(ContentElements(body));
  }

  lemma {:induction false} AllRecognizedCount(elements: seq<ContentElement>)
    requires forall c :: c in elements ==> Recognized(c.kind)
    ensures RecognizedCount(elements) == |elements|
    decreases |elements|
  {
    if elements != [] {
      var init := elements[..|elements| - 1];
      assert forall c :: c in init ==> c in elements;
      AllRecognizedCount(init);
      assert elements[|elements| - 1] in elements;
    }
  }

  /** The text of the body: every piece preceded by the joining newline. */
  function BodyText(elements: seq<ContentElement>): string {
    Prefixed("\n", BodyPieces(elements))
  }

  /** The body is emitted element by element, in the order of the elements. */
  lemma BodyTextAppend(elements: seq<ContentElement>, e: ContentElement)
    ensures BodyText(elements + [e]) == BodyText(elements) + Prefixed("\n", PieceOf(e))
  {
    var all := elements + [e];
    assert all[..|all| - 1] == elements;
    PrefixedAppend("\n", BodyPieces(elements), PieceOf(e));
  }

  /** The lines of the header: title, blank, the three metadata lines, blank, rule. */
  function HeaderLines(a: ArticleData): seq<string> {
    ["# " + a.title, [], DATE_LABEL + a.date, AUTHOR_LABEL + a.author, LINK_LABEL + a.url, [], RULE]
  }

  /** The exact layout: the seven header lines, each ended by a newline, then the body. */
  lemma MarkdownLayout(a: ArticleData)
    ensures MarkdownText(a) == Terminated(HeaderLines(a), '\n') + BodyText(a.elements)
    ensures MarkdownText(a) != [] && MarkdownText(a)[0] == '#'
  {
    var h := HeaderPieces(a);
    var b := BodyPieces(a.elements);
    assert (h + b)[0] == h[0];
    assert (h + b)[1..] == h[1..] + b;
    PrefixedAppend("\n", h[1..], b);
    HeaderText("# " + a.title, DATE_LABEL + a.date, AUTHOR_LABEL + a.author, LINK_LABEL + a.url, RULE);
  }

  /** Joining the five header pieces with newlines ends each of the seven header lines with one. */
  lemma HeaderText(title: string, date: string, author: string, url: string, rule: string)
    ensures (title + "\n") + Prefixed("\n", [date, author, url + "\n", rule + "\n"])
      == Terminated([title, [], date, author, url, [], rule], '\n')
  {
    var nl := "\n";
    var l := [title, [], date, author, url, [], rule];
    var p := [date, author, url + nl, rule + nl];
    assert Prefixed(nl, p[3..]) == nl + (rule + nl) by {
      assert p[3..][1..] == [];
    }
    assert Prefixed(nl, p[2..]) == nl + (url + nl) + (nl + (rule + nl)) by {
      assert p[2..][1..] == p[3..];
    }
    assert Prefixed(nl, p[1..]) == nl + author + Prefixed(nl, p[2..]) by {
      assert p[1..][1..] == p[2..];
    }
    assert Prefixed(nl, p) == nl + date + Prefixed(nl, p[1..]);
    assert Terminated(l[6..], '\n') == rule + nl by {
      assert l[6..][1..] == [];
    }
    assert Terminated(l[5..], '\n') == nl + (rule + nl) by {
      assert l[5..][1..] == l[6..];
    }
    assert Terminated(l[4..], '\n') == url + nl + (nl + (rule + nl)) by {
      assert l[4..][1..] == l[5..];
    }
    assert Terminated(l[3..], '\n') == author + nl + Terminated(l[4..], '\n') by {
      assert l[3..][1..] == l[4..];
    }
    assert Terminated(l[2..], '\n') == date + nl + Terminated(l[3..], '\n') by {
      assert l[2..][1..] == l[3..];
    }
    assert Terminated(l[1..], '\n') == nl + Terminated(l[2..], '\n') by {
      assert l[1..][1..] == l[2..];
    }
    assert Terminated(l, '\n') == title + nl + Terminated(l[1..], '\n');
  }

  /** The header fields read back from the first seven lines of a Markdown article. */
  datatype Header = Header(title: string, date: string, author: string, url: string)

  /** Reads the header of an article file: the title line, the metadata lines and the rule. */
  function ParseHeader(markdown: string): Option<Header> {
    var lines := Split(markdown, '\n');
    if && |lines| >= 7
       && StartsWith(lines[0], "# ") && lines[1] == []
       && StartsWith(lines[2], DATE_LABEL)
       && StartsWith(lines[3], AUTHOR_LABEL)
       && StartsWith(lines[4], LINK_LABEL)
       && lines[5] == [] && lines[6] == RULE
    then Some(Header(lines[0][2..], lines[2][|DATE_LABEL|..], lines[3][|AUTHOR_LABEL|..], lines[4][|LINK_LABEL|..]))
    else None
  }

  /** Round trip: the header written for an article reads back, as long as no field contains a newline. */
  lemma HeaderRoundTrip(a: ArticleData)
    requires '\n' !in a.title && '\n' !in a.date && '\n' !in a.author && '\n' !in a.url
    ensures ParseHeader(MarkdownText(a)) == Some(Header(a.title, a.date, a.author, a.url))
  {
    MarkdownLayout(a);
    var l := HeaderLines(a);
    assert '\n' !in l[0] && '\n' !in l[2] && '\n' !in l[3] && '\n' !in l[4] && '\n' !in RULE;
    assert forall x :: x in l ==> '\n' !in x;
    SplitTerminated(l, '\n', BodyText(a.elements));
    var lines := Split(MarkdownText(a), '\n');
    assert lines[..7] == l;
    assert l[0][..2] == "# " && l[0][2..] == a.title;
    assert l[2][..|DATE_LABEL|] == DATE_LABEL && l[2][|DATE_LABEL|..] == a.date;
    assert l[3][..|AUTHOR_LABEL|] == AUTHOR_LABEL && l[3][|AUTHOR_LABEL|..] == a.author;
    assert l[4][..|LINK_LABEL|] == LINK_LABEL && l[4][|LINK_LABEL|..] == a.url;
  }
}
