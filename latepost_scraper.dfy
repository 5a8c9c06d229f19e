/**
 * LatePostScraper: the browser-driven scraper. Besides the output directory it
 * holds the WebDriver, started before a range is scraped and closed on every
 * way out of it.
 */
module LatePostScraper {
  import opened Wrappers
  import opened Article
  import opened Markdown
  import opened ArticleFile
  import opened ScrapeRange

  /** A running Chrome session with its window size. */
  datatype WebDriver = Chrome(windowWidth: int, windowHeight: int)

  const WINDOW_WIDTH := 1366
  const WINDOW_HEIGHT := 768

  class LatePostScraper {
    /** The output directory: file name to file contents. */
    var files: map<string, string>
    /** self.driver: None when no browser is running. */
    var driver: Option<WebDriver>

    constructor (existing: map<string, string>)
      ensures files == existing && driver == None
    {
      files := existing;
      driver := None;
    }

    /**
     * start_driver: launches Chrome and sizes its window. `launches` is false when
     * the driver cannot be installed or started; that exception leaves self.driver
     * as it was. Sizing the window and the script that follows are taken to succeed.
     */
    method StartDriver(launches: bool) returns (started: bool)
      modifies this
      ensures started == launches
      ensures driver == if launches then Some(Chrome(WINDOW_WIDTH, WINDOW_HEIGHT)) else old(driver)
      ensures files == old(files)
    {
      if !launches {
        return false;
      }
      driver := Some(Chrome(WINDOW_WIDTH, WINDOW_HEIGHT));
      started := true;
    }

    /** close_driver: quits a running driver and forgets it; with no driver it does nothing. */
    method CloseDriver()
      modifies this
      ensures driver == None
      ensures files == old(files)
      ensures old(driver) == None ==> unchanged(this)
    {
      if driver.Some? {
        driver := None;
      }
    }

    /** save_markdown, as in the requests-based scraper. */
    method SaveMarkdown(articleId: int, markdownContent: Option<string>, writeOk: bool) returns (saved: bool)
      modifies this
      ensures saved == SaveSucceeds(markdownContent, writeOk)
      ensures saved ==> files == old(files)[FileName(articleId) := markdownContent.value]
      ensures !saved ==> files == old(files)
      ensures driver == old(driver)
    {
      if markdownContent.None? || markdownContent.value == [] {
        return false;
      }
      if !writeOk {
        return false;
      }
      files := files[FileName(articleId) := markdownContent.value];
      saved := true;
    }

    /**
     * scrape_articles_range: start the driver, try every id of the range, and close
     * the driver in the finally block. None stands for the exception start_driver
     * raises when Chrome does not launch; it propagates after the driver is closed.
     */
    method ScrapeArticlesRange(startId: int, endId: int, launches: bool, pages: int -> Option<Page>, writeOk: int -> bool)
      returns (results: Option<RangeResults>)
      modifies this
      ensures driver == None
      ensures launches ==> results == Some(RangeResults(SucceededIds(startId, endId, Outcome(pages, writeOk)), FailedIds(startId, endId, Outcome(pages, writeOk))))
      ensures launches ==> files == SavedFiles(old(files), startId, endId, Outcome(pages, writeOk), ArticleText(pages))
      ensures !launches ==> results == None && files == old(files)
    {
      var started := StartDriver(launches);
      if !started {
        CloseDriver();
        return None;
      }
      var scraped := ScrapeIds(startId, endId, pages, writeOk);
      results := Some(scraped);
      CloseDriver();
    }

    /** The loop inside the try block of scrape_articles_range, run while the driver is up. */
    method ScrapeIds(startId: int, endId: int, pages: int -> Option<Page>, writeOk: int -> bool)
      returns (results: RangeResults)
      modifies this
      ensures results == RangeResults(SucceededIds(startId, endId, Outcome(pages, writeOk)), FailedIds(startId, endId, Outcome(pages, writeOk)))
      ensures files == SavedFiles(old(files), startId, endId, Outcome(pages, writeOk), ArticleText(pages))
      ensures driver == old(driver)
    {
      var success: seq<int> := [];
      var failed: seq<int> := [];
      // range(start_id, end_id + 1) is empty when end_id < start_id
      var stop := if endId < startId then startId else endId + 1;
      ghost var outcome := Outcome(pages, writeOk);
      ghost var text := ArticleText(pages);
      for articleId := startId to stop
        invariant success == SucceededIds(startId, articleId - 1, outcome)
        invariant failed == FailedIds(startId, articleId - 1, outcome)
        invariant files == SavedFiles(old(files), startId, articleId - 1, outcome, text)
        invariant driver == old(driver)
      {
        var saved := ScrapeOne(articleId, pages, writeOk);
        RangeStep(startId, articleId, outcome);
        SavedFilesStep(old(files), startId, articleId, outcome, text);
        if saved {
          success := success + [articleId];
        } else {
          failed := failed + [articleId];
        }
      }
      if endId < startId {
        RangeEmpty(old(files), startId, endId, outcome, text);
      }
      results := RangeResults(success, failed);
    }

    /** One iteration of the loop: scrape the article, convert it and save it. */
    method ScrapeOne(articleId: int, pages: int -> Option<Page>, writeOk: int -> bool) returns (saved: bool)
      modifies this
      ensures saved == Outcome(pages, writeOk)(articleId)
      ensures files == if saved then old(files)[FileName(articleId) := ArticleText(pages)(articleId)] else old(files)
      ensures driver == old(driver)
    {
      ScrapedIff(articleId, pages, writeOk);
      var articleData := ScrapeArticle(articleId, pages(articleId));
      saved := false;
      if articleData.Some? {
        var markdownContent := ConvertToMarkdown(articleData);
        saved := SaveMarkdown(articleId, markdownContent, writeOk(articleId));
      }
    }
  }
}
