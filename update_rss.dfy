/**
 * The two entry points of update_rss.py. Both find the latest article id (from
 * the article file names, or from the persisted state), then either scrape the
 * next article or regenerate the feed. The feed generator, the persistence
 * layer and the scraper's network are outside this model: what they are asked
 * to do is recorded as Requests, and what they answer is a parameter.
 */
module UpdateRss {
  import opened Wrappers
  import opened Article
  import opened Markdown
  import opened ArticleFile
  import opened SimpleScraper

  /**
   * What a run asks of the code outside this model. Each request is made at most
   * once per run, and in a fixed order: the directory is created, the next
   * article is fetched, the feed is generated, the store is updated; the empty
   * feed fallback happens only when nothing was generated.
   */
  datatype Requests = Requests(
    createdArticlesDir: bool,      // os.makedirs(articles_dir)
    fetched: Option<int>,          // scraper.scrape_article(id)
    generatedFrom: Option<int>,    // LatePostRSSGenerator(..., last_id=id).generate_rss()
    savedAfterUpdate: Option<int>, // save_after_update(persistence, id)
    ensuredFeedNotEmpty: bool)     // persistence._ensure_feed_not_empty()

  const NO_REQUESTS := Requests(false, None, None, None, false)

  /**
   * The id update_rss_with_simple_scraper continues from: with persistence the
   * persisted latest id, and the file names only when there is none; without
   * persistence the file names.
   */
  function ScraperLatestId(persistence: bool, persistedLatest: Option<int>, listing: seq<string>): Option<int> {
    if persistence && persistedLatest.Some? then persistedLatest else LatestId(listing)
  }

  /**
   * The save of the next article inside update_rss_with_simple_scraper: a
   * scraper over the article directory converts the scraped data and saves it
   * (missing data is not converted and nothing is saved).
   */
  method ConvertAndSave(nextId: int, articles: map<string, string>, articleData: Option<ArticleData>, writeOk: bool)
    returns (saved: bool, directory: map<string, string>)
    ensures saved <==> articleData.Some? && writeOk
    ensures directory == if saved then articles[FileName(nextId) := MarkdownText(articleData.value)] else articles
  {
    var scraper := new SimpleLatePostScraper(articles);
    saved := false;
    if articleData.Some? {
      var markdownContent := ConvertToMarkdown(articleData);
      MarkdownLayout(articleData.value);
      saved := scraper.SaveMarkdown(nextId, markdownContent, writeOk);
    }
    directory := scraper.files;
  }

  /**
   * Whether update_rss_with_simple_scraper lists the article directory: always
   * without persistence, and with persistence when the store has no latest id.
   */
  predicate ListsDirectory(persistence: bool, persistedLatest: Option<int>) {
    !persistence || persistedLatest.None?
  }

  /**
   * update_rss_with_simple_scraper(). `persistence` says whether
   * initialize_persistence() gave a store and `persistedLatest` what its
   * get_latest_article_id() returns; `dirExists` whether the article directory
   * exists, `listing` its os.listdir and `articles` its contents; `feedExists`
   * and `feedEmpty` are os.path.exists('feed.xml') and _is_feed_empty().
   * `scrape` gives what scraper.scrape_article returns for an id
   * (Article.ScrapeArticle models that call over the fetched page), and
   * `writeOk` whether the article file can be written. `directory` is the
   * article directory afterwards; `raised` says that os.listdir raised
   * FileNotFoundError, which ends the run without an answer.
   */
  method UpdateRssWithSimpleScraper(
    persistence: bool, persistedLatest: Option<int>,
    dirExists: bool, listing: seq<string>, articles: map<string, string>,
    feedExists: bool, feedEmpty: bool,
    scrape: int -> Option<ArticleData>, writeOk: bool)
    returns (updated: bool, requests: Requests, directory: map<string, string>, raised: bool)
    ensures raised <==> !dirExists && ListsDirectory(persistence, persistedLatest)
    ensures raised ==> !updated && requests == NO_REQUESTS && directory == articles
    ensures !raised ==> match ScraperLatestId(persistence, persistedLatest, listing)
      case None =>
        && !updated
        && directory == articles
        && requests == NO_REQUESTS.(ensuredFeedNotEmpty := persistence && (!feedExists || feedEmpty))
      case Some(last) =>
        && (updated <==> scrape(last + 1).Some? && writeOk)
        && directory == (if updated then articles[FileName(last + 1) := MarkdownText(scrape(last + 1).value)] else articles)
        && requests == Requests(
             !dirExists,
             Some(last + 1),
             if updated then Some(last + 1) else None,
             if updated && persistence then Some(last + 1) else None,
             !updated && persistence && (!feedExists || feedEmpty))
  {
    requests := NO_REQUESTS;
    directory := articles;
    raised := false;
    var lastId: Option<int>;
    if persistence {
      lastId := persistedLatest;
      if lastId.None? {
        if !dirExists {
          return false, requests, directory, true;
        }
        // filter the listing, parse the names, take the largest id if any
        lastId := LatestArticleId(listing);
        if lastId.None? && (!feedExists || feedEmpty) {
          requests := requests.(ensuredFeedNotEmpty := true);
          return false, requests, directory, false;
        }
      }
    } else {
      if !dirExists {
        return false, requests, directory, true;
      }
      lastId := LatestArticleId(listing);
      if lastId.None? {
        // no article file, or none whose name parses; the feed fallback here
        // is guarded by the (absent) persistence store
        return false, requests, directory, false;
      }
    }
    if lastId.None? && feedExists {
      return false, requests, directory, false;
    }
    if lastId.None? {
      return false, requests, directory, false;
    }
    updated, requests, directory := ScrapeNext(lastId.value, persistence, dirExists, articles, feedExists, feedEmpty, scrape, writeOk);
  }

  /**
   * The second half of update_rss_with_simple_scraper, once the latest id `last`
   * is known: the scraper is created (which creates a missing article
   * directory), article last + 1 is fetched and saved, and on success the feed
   * is regenerated and the store updated; otherwise the empty-feed check runs.
   */
  method ScrapeNext(
    last: int, persistence: bool, dirExists: bool, articles: map<string, string>,
    feedExists: bool, feedEmpty: bool,
    scrape: int -> Option<ArticleData>, writeOk: bool)
    returns (updated: bool, requests: Requests, directory: map<string, string>)
    ensures updated <==> scrape(last + 1).Some? && writeOk
    ensures directory == if updated then articles[FileName(last + 1) := MarkdownText(scrape(last + 1).value)] else articles
    ensures requests == Requests(
              !dirExists,
              Some(last + 1),
              if updated then Some(last + 1) else None,
              if updated && persistence then Some(last + 1) else None,
              !updated && persistence && (!feedExists || feedEmpty))
  {
    requests := NO_REQUESTS.(createdArticlesDir := !dirExists);
    var nextId := last + 1;
    requests := requests.(fetched := Some(nextId));
    var saved;
    saved, directory := ConvertAndSave(nextId, articles, scrape(nextId), writeOk);
    if saved {
      requests := requests.(generatedFrom := Some(nextId));
      if persistence {
        requests := requests.(savedAfterUpdate := Some(nextId));
      }
      return true, requests, directory;
    }
    if persistence && (!feedExists || feedEmpty) {
      requests := requests.(ensuredFeedNotEmpty := true);
    }
    return false, requests, directory;
  }

  /**
   * After a run that saved article k + 1 without persistence, the directory
   * listing names that file, so the next run continues from k + 1 and tries k + 2.
   */
  lemma UpdateAdvances(listing: seq<string>, k: int)
    requires ScraperLatestId(false, None, listing) == Some(k)
    ensures ScraperLatestId(false, None, listing + [FileName(k + 1)]) == Some(k + 1)
  {
    LatestIdAfterSave(listing, k);
  }

  /** The id update_rss() uses: from the file names first, from persistence only when none is found. */
  function RssId(persistence: bool, persistedLatest: Option<int>, listing: seq<string>): Option<int> {
    var fromFiles := LatestId(listing);
    if fromFiles.None? && persistence then persistedLatest else fromFiles
  }

  /** Python's `if last_id:`: None and 0 both count as no id. */
  predicate Truthy(id: Option<int>) {
    id.Some? && id.value != 0
  }

  /**
   * Where update_rss() takes its id from: when some article file name parses, the
   * largest such id, whatever persistence says; otherwise the persisted id, if
   * persistence is on.
   */
  lemma RssIdSource(persistence: bool, persistedLatest: Option<int>, listing: seq<string>, n: string)
    requires n in listing && IsArticleFile(n) && IdOf(n).Some?
    ensures RssId(persistence, persistedLatest, listing).Some?
    ensures IdOf(n).value <= RssId(persistence, persistedLatest, listing).value
    ensures exists f :: f in listing && IsArticleFile(f) && IdOf(f) == RssId(persistence, persistedLatest, listing)
  {
    LatestIdIsMaximum(listing, n);
  }

  /** Without a parsable file name update_rss() falls back on the persisted id, or on nothing. */
  lemma RssIdFallback(persistence: bool, persistedLatest: Option<int>, listing: seq<string>)
    requires forall n :: n in listing && IsArticleFile(n) ==> IdOf(n).None?
    ensures RssId(persistence, persistedLatest, listing) == if persistence then persistedLatest else None
  {
    LatestIdNone(listing);
  }

  /**
   * update_rss(). `dirExists` says whether the article directory exists (it is
   * created empty when it does not); the other parameters are as for
   * UpdateRssWithSimpleScraper. The result is False only when there is no usable
   * id, no feed.xml and no persistence.
   */
  method UpdateRss(persistence: bool, persistedLatest: Option<int>, dirExists: bool, listing: seq<string>, feedExists: bool)
    returns (ok: bool, requests: Requests)
    ensures var id := RssId(persistence, persistedLatest, if dirExists then listing else []);
      && (ok <==> Truthy(id) || feedExists || persistence)
      && requests == Requests(
           !dirExists,
           None,
           if Truthy(id) then id else None,
           None,
           !Truthy(id) && !feedExists && persistence)
  {
    requests := NO_REQUESTS;
    var lastId: Option<int> := None;
    var names := listing;
    if !dirExists {
      requests := requests.(createdArticlesDir := true);
      names := [];
    }
    var existing := ArticleFiles(names);
    if existing != [] {
      var articleIds := CollectArticleIds(existing);
      if articleIds != [] {
        lastId := Some(Max(articleIds));
      }
    }
    if lastId.None? && persistence {
      lastId := persistedLatest;
    }
    if lastId.Some? && lastId.value != 0 {
      requests := requests.(generatedFrom := lastId);
      return true, requests;
    } else {
      if feedExists {
        return true, requests;
      } else if persistence {
        requests := requests.(ensuredFeedNotEmpty := true);
        return true, requests;
      }
      return false, requests;
    }
  }
}
