/**
 * What scrape_article extracts from an article page, in both scrapers: the
 * title, the publication date (or a placeholder), the joined author names (or
 * a placeholder) and the body elements that are not blank. The HTML parser and
 * the network are replaced by a Page value holding what the CSS selectors found.
 */
module Article {
  import opened Wrappers
  import opened PyStr

  /** The tags find_all(['p', 'img', 'blockquote']) returns, with their text or src attribute ('' when absent). */
  datatype HtmlElement = Paragraph(text: string) | Img(src: string) | Blockquote(text: string)

  /** The element_type of a content element. */
  datatype Kind = Text | Image | Quote | Other(name: string)

  datatype ContentElement = ContentElement(kind: Kind, content: string)

  /** The dictionary scrape_article returns. */
  datatype ArticleData = ArticleData(
    id: int,
    title: string,
    date: string,
    author: string,
    elements: seq<ContentElement>,
    url: string)

  /**
   * What the selectors find on a page that was fetched with status 200: the title
   * element's text, the date element's text, the texts of the author elements and
   * the article body's elements (None where the selector found nothing).
   */
  datatype Page = Page(
    title: Option<string>,
    date: Option<string>,
    authors: seq<string>,
    body: Option<seq<HtmlElement>>)

  const UNKNOWN_DATE := "未知日期"
  const UNKNOWN_AUTHOR := "未知作者"
  const AUTHOR_SEPARATOR := '、'
  const ARTICLE_URL_PREFIX := "https://www.latepost.com/news/dj_detail?id="

  function ArticleUrl(id: int): string {
    ARTICLE_URL_PREFIX + IntToString(id)
  }

  /** The content element one body element contributes, if any. */
  function Kept(e: HtmlElement): Option<ContentElement> {
    match e
    case Paragraph(t) => if Strip(t) != [] then Some(ContentElement(Text, Strip(t))) else None
    case Img(src) => if src != [] then Some(ContentElement(Image, src)) else None
    case Blockquote(t) => if Strip(t) != [] then Some(ContentElement(Quote, Strip(t))) else None
  }

  /** content_elements after the loop over the body's elements. */
  function ContentElements(body: seq<HtmlElement>): seq<ContentElement> {
    if body == [] then []
    else
      var k := Kept(body[|body| - 1]);
      ContentElements(body[..|body| - 1]) + (if k.Some? then [k.value] else [])
  }

  /** The loop of scrape_article that collects the non-blank paragraphs, images and quotes. */
  method ExtractContentElements(body: seq<HtmlElement>) returns (elements: seq<ContentElement>)
    ensures elements == ContentElements(body)
  {
    elements := [];
    for i := 0 to |body|
      invariant elements == ContentElements(body[..i])
    {
      assert body[..i + 1][..i] == body[..i];
      match body[i]
      case Paragraph(t) =>
        var text := Strip(t);
        if text != [] {
          elements := elements + [ContentElement(Text, text)];
        }
      case Img(src) =>
        if src != [] {
          elements := elements + [ContentElement(Image, src)];
        }
      case Blockquote(t) =>
        var quote := Strip(t);
        if quote != [] {
          elements := elements + [ContentElement(Quote, quote)];
        }
    }
    assert body[..|body|] == body;
  }

  /** The filter works element by element, so it keeps the order of the page. */
  lemma {:induction false} ContentElementsAppend(a: seq<HtmlElement>, b: seq<HtmlElement>)
    ensures ContentElements(a + b) == ContentElements(a) + ContentElements(b)
    decreases |b|
  {
    if b == [] {
      assert a + b == a;
    } else {
      var init := b[..|b| - 1];
      var k := Kept(b[|b| - 1]);
      var last := if k.Some? then [k.value] else [];
      ContentElementsAppend(a, init);
      assert (a + b)[..|a + b| - 1] == a + init;
      assert (a + b)[|a + b| - 1] == b[|b| - 1];
      assert ContentElements(a + b) == ContentElements(a + init) + last;
      assert ContentElements(b) == ContentElements(init) + last;
    }
  }

  /** A text, image or quote with non-empty content, texts and quotes stripped. */
  predicate NonBlank(c: ContentElement) {
    && (c.kind == Text || c.kind == Image || c.kind == Quote)
    && c.content != []
    && (c.kind != Image ==> Strip(c.content) == c.content)
  }

  /** Every kept element is a text, image or quote with non-empty content, texts and quotes stripped. */
  lemma {:induction false} ContentElementsNonBlank(body: seq<HtmlElement>)
    ensures forall c :: c in ContentElements(body) ==> NonBlank(c)
    ensures |ContentElements(body)| <= |body|
    decreases |body|
  {
    if body != [] {
      var init := ContentElements(body[..|body| - 1]);
      var k := Kept(body[|body| - 1]);
      ContentElementsNonBlank(body[..|body| - 1]);
      KeptNonBlank(body[|body| - 1]);
      assert ContentElements(body) == init + (if k.Some? then [k.value] else []);
    }
  }

  lemma KeptNonBlank(e: HtmlElement)
    ensures Kept(e).Some? ==> NonBlank(Kept(e).value)
  {
    match e
    case Paragraph(t) => StripIdempotent(t);
    case Img(_) =>
    case Blockquote(t) => StripIdempotent(t);
  }

  /** A paragraph or quote is dropped exactly when its text is blank, an image exactly when its src is empty. */
  lemma KeptWhenNonBlank(e: HtmlElement)
    ensures ContentElements([e]) == [] <==>
      match e
      case Paragraph(t) => Strip(t) == []
      case Img(src) => src == []
      case Blockquote(t) => Strip(t) == []
  {
    assert [e][..0] == [];
  }

  /** [a.text.strip() for a in author_elements if a.text.strip()] */
  function KeptAuthors(names: seq<string>): seq<string> {
    if names == [] then []
    else
      var a := Strip(names[|names| - 1]);
      KeptAuthors(names[..|names| - 1]) + (if a != [] then [a] else [])
  }

  /** "、".join(authors) if authors else "未知作者" */
  function AuthorInfo(names: seq<string>): string {
    var authors := KeptAuthors(names);
    if authors != [] then Join([AUTHOR_SEPARATOR], authors) else UNKNOWN_AUTHOR
  }

  /** The publication date: the stripped text of the date element, the placeholder when there is none. */
  function PublishDate(date: Option<string>): string {
    if date.Some? then Strip(date.value) else UNKNOWN_DATE
  }

  lemma {:induction false} KeptAuthorsNonBlank(names: seq<string>)
    ensures forall a :: a in KeptAuthors(names) ==> a != [] && Strip(a) == a
    decreases |names|
  {
    if names != [] {
      KeptAuthorsNonBlank(names[..|names| - 1]);
      StripIdempotent(names[|names| - 1]);
    }
  }

  /**
   * The author line names the placeholder exactly when no author name is left
   * after stripping; otherwise splitting it at "、" gives back the stripped names,
   * provided no name itself contains "、".
   */
  lemma AuthorInfoSplits(names: seq<string>)
    requires forall a :: a in names ==> AUTHOR_SEPARATOR !in a
    ensures KeptAuthors(names) == [] ==> AuthorInfo(names) == UNKNOWN_AUTHOR
    ensures KeptAuthors(names) != [] ==> Split(AuthorInfo(names), AUTHOR_SEPARATOR) == KeptAuthors(names)
  {
    var authors := KeptAuthors(names);
    if authors != [] {
      KeptAuthorsWithin(names);
      SplitJoin(authors, AUTHOR_SEPARATOR);
    }
  }

  /** Stripping adds no character. */
  lemma StripWithin(s: string, c: char)
    requires c !in s
    ensures c !in Strip(s)
  {
    var l := LStrip(s);
    var r := RStrip(l);
    assert forall k :: 0 <= k < |r| ==> r[k] == s[|s| - |l| + k];
  }

  /** A kept author name is the stripped form of some listed name, so it holds no character the listed names lack. */
  lemma {:induction false} KeptAuthorsWithin(names: seq<string>)
    requires forall a :: a in names ==> AUTHOR_SEPARATOR !in a
    ensures forall i :: 0 <= i < |KeptAuthors(names)| ==> AUTHOR_SEPARATOR !in KeptAuthors(names)[i]
    decreases |names|
  {
    if names != [] {
      var init := names[..|names| - 1];
      var last := names[|names| - 1];
      assert forall a :: a in init ==> a in names;
      KeptAuthorsWithin(init);
      assert last in names;
      StripWithin(last, AUTHOR_SEPARATOR);
      assert KeptAuthors(names) == KeptAuthors(init) + (if Strip(last) != [] then [Strip(last)] else []);
    }
  }

  /** The page was fetched and both the title and the body were found. */
  predicate Complete(page: Option<Page>) {
    page.Some? && page.value.title.Some? && page.value.body.Some?
  }

  /** scrape_article once the page is fetched: None when the title or the body is missing. */
  function ArticleOf(id: int, page: Option<Page>): Option<ArticleData> {
    match page
    case None => None
    case Some(p) =>
      if p.title.None? || p.body.None? then None
      else Some(ArticleData(
        id,
        Strip(p.title.value),
        PublishDate(p.date),
        AuthorInfo(p.authors),
        ContentElements(p.body.value),
        ArticleUrl(id)))
  }

  /**
   * scrape_article(article_id). `page` is None when the request failed, the status
   * was not 200, or an exception was raised on the way (all caught and turned into None).
   */
  method ScrapeArticle(articleId: int, page: Option<Page>) returns (data: Option<ArticleData>)
    ensures data == ArticleOf(articleId, page)
    ensures data.Some? <==> Complete(page)
    ensures data.Some? ==> data.value.id == articleId && data.value.url == ArticleUrl(articleId)
  {
    if page.None? {
      return None;
    }
    var p := page.value;
    if p.title.None? {
      return None;
    }
    var title := Strip(p.title.value);
    var publishDate := PublishDate(p.date);
    var authorInfo := AuthorInfo(p.authors);
    if p.body.None? {
      return None;
    }
    var elements := ExtractContentElements(p.body.value);
    data := Some(ArticleData(articleId, title, publishDate, authorInfo, elements, ArticleUrl(articleId)));
  }
}
