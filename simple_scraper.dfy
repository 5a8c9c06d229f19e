/** SimpleLatePostScraper: the requests-based scraper that writes each article to the output directory. */
module SimpleScraper {
  import opened Wrappers
  import opened Article
  import opened Markdown
  import opened ArticleFile
  import opened ScrapeRange

  class SimpleLatePostScraper {
    /** The output directory: file name to file contents. */
    var files: map<string, string>

    /** The scraper over an output directory that holds `existing` (created empty when missing). */
    constructor (existing: map<string, string>)
      ensures files == existing
    {
      files := existing;
    }

    /**
     * save_markdown: refuses missing or empty content without touching the
     * directory; otherwise writes latepost_article_{id}.md. `writeOk` says whether
     * the write goes through (an OSError is caught and reported as False).
     */
    method SaveMarkdown(articleId: int, markdownContent: Option<string>, writeOk: bool) returns (saved: bool)
      modifies this
      ensures saved == SaveSucceeds(markdownContent, writeOk)
      ensures saved ==> files == old(files)[FileName(articleId) := markdownContent.value]
      ensures !saved ==> files == old(files)
    {
      if markdownContent.None? || markdownContent.value == [] {
        return false;
      }
      if !writeOk {
        return false;
      }
      files := files[FileName(articleId) := markdownContent.value];
      saved := true;
    }

    /**
     * scrape_articles_range(start_id, end_id): tries every id of range(start_id,
     * end_id + 1) in turn. `pages` gives what each request returns, `writeOk` whether
     * each file write goes through.
     */
    method ScrapeArticlesRange(startId: int, endId: int, pages: int -> Option<Page>, writeOk: int -> bool)
      returns (results: RangeResults)
      modifies this
      ensures results == RangeResults(SucceededIds(startId, endId, Outcome(pages, writeOk)), FailedIds(startId, endId, Outcome(pages, writeOk)))
      ensures files == SavedFiles(old(files), startId, endId, Outcome(pages, writeOk), ArticleText(pages))
    {
      var success: seq<int> := [];
      var failed: seq<int> := [];
      // range(start_id, end_id + 1) is empty when end_id < start_id
      var stop := if endId < startId then startId else endId + 1;
      ghost var outcome := Outcome(pages, writeOk);
      ghost var text := ArticleText(pages);
      for articleId := startId to stop
        invariant success == SucceededIds(startId, articleId - 1, outcome)
        invariant failed == FailedIds(startId, articleId - 1, outcome)
        invariant files == SavedFiles(old(files), startId, articleId - 1, outcome, text)
      {
        var saved := ScrapeOne(articleId, pages, writeOk);
        RangeStep(startId, articleId, outcome);
        SavedFilesStep(old(files), startId, articleId, outcome, text);
        if saved {
          success := success + [articleId];
        } else {
          failed := failed + [articleId];
        }
      }
      if endId < startId {
        RangeEmpty(old(files), startId, endId, outcome, text);
      }
      results := RangeResults(success, failed);
    }

    /** One iteration of the loop: scrape the article, convert it and save it. */
    method ScrapeOne(articleId: int, pages: int -> Option<Page>, writeOk: int -> bool) returns (saved: bool)
      modifies this
      ensures saved == Outcome(pages, writeOk)(articleId)
      ensures files == if saved then old(files)[FileName(articleId) := ArticleText(pages)(articleId)] else old(files)
    {
      ScrapedIff(articleId, pages, writeOk);
      var articleData := ScrapeArticle(articleId, pages(articleId));
      saved := false;
      if articleData.Some? {
        var markdownContent := ConvertToMarkdown(articleData);
        saved := SaveMarkdown(articleId, markdownContent, writeOk(articleId));
      }
    }
  }
}
