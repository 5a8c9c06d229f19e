/**
 * regenerate_feed(): rebuilds feed.xml from the article directory alone. The
 * latest id is read from the article file names as in update_rss, with 2844
 * standing in when no name parses; the feed generator (outside this model) is
 * asked for at most 20 entries.
 */
module RegenerateFeed {
  import opened Wrappers
  import opened ArticleFile

  /** The id used when the directory holds no parsable article file. */
  const DEFAULT_LAST_ID := 2844
  /** The max_entries passed to generate_rss. */
  const MAX_ENTRIES := 20

  /** What the run hands to the feed generator and what it reports. */
  datatype Regeneration = Regeneration(
    lastId: int,        // LatePostRSSGenerator(last_id=...)
    maxEntries: int,    // generate_rss(max_entries=...)
    reportedCount: int) // the count in the closing message

  /** The id the generator starts from for a directory listing. */
  function RegenerationId(listing: seq<string>): int {
    match LatestId(listing)
    case None => DEFAULT_LAST_ID
    case Some(k) => k
  }

  function Min(a: int, b: int): int {
    if a <= b then a else b
  }

  /**
   * regenerate_feed(). `listing` is os.listdir of the article directory. The
   * function always answers True; what it asks the generator for is `generation`.
   */
  method Regenerate(listing: seq<string>) returns (ok: bool, generation: Regeneration)
    ensures ok
    ensures generation.lastId == RegenerationId(listing)
    ensures generation.maxEntries == MAX_ENTRIES
    ensures generation.reportedCount == Min(MAX_ENTRIES, |ArticleIds(listing)|)
  {
    var existing := ArticleFiles(listing);
    var articleIds := CollectArticleIds(existing);
    var lastId: int;
    if articleIds == [] {
      lastId := DEFAULT_LAST_ID;
    } else {
      lastId := Max(articleIds);
    }
    generation := Regeneration(lastId, MAX_ENTRIES, Min(MAX_ENTRIES, |articleIds|));
    ok := true;
  }

  /** With some parsable article file, the generator starts from the largest id the file names carry. */
  lemma RegenerationIdIsLatest(listing: seq<string>, n: string)
    requires n in listing && IsArticleFile(n) && IdOf(n).Some?
    ensures IdOf(n).value <= RegenerationId(listing)
    ensures exists f :: f in listing && IsArticleFile(f) && IdOf(f) == Some(RegenerationId(listing))
  {
    LatestIdIsMaximum(listing, n);
  }

  /** Without a parsable article file name the generator starts from the default id. */
  lemma RegenerationIdDefault(listing: seq<string>)
    requires forall n :: n in listing && IsArticleFile(n) ==> IdOf(n).None?
    ensures RegenerationId(listing) == DEFAULT_LAST_ID
  {
    LatestIdNone(listing);
  }

  /**
   * The reported count is the number of parsed names, capped at 20: it counts
   * file names, so two names that parse to the same id are both counted.
   */
  lemma ReportedCountBounds(listing: seq<string>)
    ensures 0 <= Min(MAX_ENTRIES, |ArticleIds(listing)|) <= MAX_ENTRIES
    ensures Min(MAX_ENTRIES, |ArticleIds(listing)|) <= |ArticleFiles(listing)| <= |listing|
  {
    ParsedIdsLength(ArticleFiles(listing));
    ArticleFilesLength(listing);
  }

  /** A directory that holds the files saved for ids, in order, regenerates from the largest of them and reports their number up to 20. */
  lemma RegenerateSavedFiles(ids: seq<int>)
    requires ids != []
    ensures RegenerationId(SavedListing(ids)) == Max(ids)
    ensures Min(MAX_ENTRIES, |ArticleIds(SavedListing(ids))|) == Min(MAX_ENTRIES, |ids|)
  {
    ArticleIdsOfSavedFiles(ids);
  }
}
