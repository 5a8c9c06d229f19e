# LatePostAutoRSS: a Dafny model of the scrapers and the update scripts

LatePostAutoRSS fetches articles from LatePost (晚点) by numeric id. It
writes each one as a Markdown file `latepost_article_{id}.md` and keeps an
RSS feed up to date. This project models the parts of the repository that
decide something, and proves what they promise:

- **Article extraction**, shared by both scrapers (`Article`). A fetched
  page gives a title, a date, author names and body elements. These are
  stripped and filtered into the article record.
- **Markdown conversion** (`Markdown`). The record is written as a
  `# title` header, three `- **label**: value` lines, a `---` rule and one
  piece per body element.
- **The scrape loop over an id range** (`ScrapeRange`, `SimpleScraper`,
  `LatePostScraper`). Every id is tried in turn. It lands in `success` when
  its file was written and in `failed` otherwise. The Selenium scraper
  starts its browser first and closes it on every way out.
- **The article file name codec** (`ArticleFile`). `save_markdown` writes
  the file name. The update scripts list the directory, keep the names of
  that shape, parse them back with `int()` and take the largest id.
- **The two update entry points** (`UpdateRss`) and **the offline feed
  rebuild** (`RegenerateFeed`). These decide which id to continue from,
  what to scrape, and what to ask of the feed generator and the Git store.
- **The Git clone URL, the clone guard and the feed freshness choice**
  (`Persistence`), and **the start-up choice between the local and the
  remote feed** (`FeedInitializer`).
- **The uptime message of the health endpoint** (`HealthCheck`).

Python's string built-ins that these rely on are modelled in `PyStr`:

- `strip()`, with the full `isspace()` set;
- `replace()`, which rewrites every occurrence;
- `join()` with one separator;
- `str()` of an int;
- `int()` of a str, which allows surrounding whitespace, a sign and single
  underscores between digits.

The source never calls `split()`. `PyStr.Split` is defined only as the
inverse of `join()`: it reads the joined author line and the Markdown
lines back, so that what `join()` writes can be stated to be recoverable.

State that the source changes in place is modelled as class fields. These
are the scrapers' output directory (a map from file name to contents), the
Selenium driver, the local `feed.xml` of the feed initialiser, and the lazy
`start_time` of the health check. Everything the code reads from outside is
a parameter:

- HTTP responses and rendered pages (`Page`, `None` for a failed request);
- whether a write goes through;
- directory listings;
- environment variables;
- the remote feed;
- the build dates read from the feeds;
- the clock.

The title piece and the link piece each already end in a newline, so
joining the pieces with newlines leaves an empty line after the title and
another after the link line; `Markdown.MarkdownLayout` states this layout.
The file names are read back with `int()`, which also accepts zero and
negative numbers, so the file name of any integer id, positive or not,
parses back to that id.

## Model

| member | source | states |
|---|---|---|
| PyStr.Strip | simple_scraper.py:61 | `strip()`: the text without its leading and trailing whitespace, whitespace being the `isspace()` set |
| PyStr.ReplaceAll | update_rss.py:25 | `replace(pat, rep)`: every non-overlapping occurrence of the pattern, scanned left to right, is replaced |
| PyStr.Join | simple_scraper.py:138 | `sep.join(parts)`: the parts in order with the separator between neighbours, the empty text for no parts |
| PyStr.IntToString | simple_scraper.py:145 | `str(i)`: the decimal digits of the integer without leading zeros, after a minus sign when it is negative |
| PyStr.ParseInt | update_rss.py:25 | `int(s)`: the integer after optional whitespace and sign, ASCII digits with single underscores between them and optional whitespace; None where Python raises ValueError. The whitespace is `str.isspace()` without the separators U+001C to U+001F, which `int()` does not skip |
| PyStr.ParseIntRejectsSeparators | update_rss.py:24-28 | a text starting with one of the separators U+001C to U+001F is never a number, although `strip()` would remove that character |
| PyStr.LStripRemovesSpaces | simple_scraper.py:61 | the characters `strip()` removes in front are all whitespace |
| PyStr.RStripRemovesSpaces | simple_scraper.py:61 | the characters `strip()` removes at the end are all whitespace |
| PyStr.StripIdempotent | simple_scraper.py:83-85 | stripping a stripped text changes nothing |
| PyStr.LStrip | simple_scraper.py:61 | what `lstrip()` leaves is a suffix of the text that is empty or starts with a non-space |
| PyStr.RStrip | simple_scraper.py:61 | what `rstrip()` leaves is a prefix of the text that is empty or ends with a non-space |
| PyStr.StripUnpadded | update_rss.py:25 | a text that neither starts nor ends with whitespace is left alone by `strip()` |
| PyStr.ReplaceAllFree | persistence.py:30-33 | `replace()` leaves a text without an occurrence of the pattern unchanged |
| PyStr.ReplaceAllAbsent | update_rss.py:25 | `replace()` leaves a text that lacks the first character of the pattern unchanged |
| PyStr.ReplaceAllLeading | persistence.py:30-33 | an occurrence at the front is replaced, and the scan goes on after it |
| PyStr.ReplaceAllTrailing | update_rss.py:25 | a pattern at the very end, preceded by text free of its first character, is the only thing replaced |
| PyStr.PrefixedAppend | simple_scraper.py:138 | `Prefixed`, the separator-then-part text that `join()` puts after its first part, distributes over concatenation of the piece list |
| PyStr.SplitJoin | simple_scraper.py:70 | `join()` loses nothing: splitting `"、".join(parts)` at `、` (a read-back, not a call in the source) gives the parts back when no part contains the separator |
| PyStr.SplitAtFirst | simple_scraper.py:70 | the read-back inverse of `join()` cuts at the first separator and goes on with the rest |
| PyStr.SplitTerminated | simple_scraper.py:138 | reading back text joined from newline-ended lines returns those lines first, in order |
| PyStr.IntToStringChars | simple_scraper.py:145 | `str(id)` consists of digits and a minus sign |
| PyStr.ParseIntOfIntToString | update_rss.py:25 | `int(str(i)) == i` for every integer i |
| PyStr.DecimalValueOfNat | simple_scraper.py:145 | the digits `str()` writes for a natural number read back as that number |
| PyStr.ParseIntNeedsDigit | update_rss.py:24-28 | a text without any digit is never accepted by `int()` (ValueError) |
| ArticleFile.FileName | simple_scraper.py:145 | the file name of an article: `latepost_article_`, `str(id)`, `.md` |
| ArticleFile.IsArticleFile | update_rss.py:18-19 | the listing filter: the name ends in `.md` and starts with `latepost_article_` (also update_rss.py:133-134 and regenerate_feed.py:9-10) |
| ArticleFile.ArticleFiles | update_rss.py:18-19 | the comprehension over the listing: the article file names, in listing order |
| ArticleFile.ParsedIds | update_rss.py:22-28 | the ids the parsing loop appends: `IdOf` of each name that parses, in order, skipping the rest |
| ArticleFile.IdOf | update_rss.py:25 | the id of a name: `int()` of the name with every `latepost_article_` and then every `.md` removed, None on ValueError (also update_rss.py:140 and regenerate_feed.py:15) |
| ArticleFile.LatestId | update_rss.py:18-31 | the largest id parsed from the listed article files, None when none parses (also regenerate_feed.py:20-24) |
| ArticleFile.Max | update_rss.py:31 | `max()` is an element of the list and no element exceeds it |
| ArticleFile.CollectArticleIds | update_rss.py:22-28 | the parsing loop appends the id of each name `int()` accepts and skips the rest, in listing order |
| ArticleFile.LatestArticleId | update_rss.py:18-31 | filtering, parsing and `max()` give the latest id, or None when nothing parses |
| ArticleFile.FileNameRoundTrip | update_rss.py:18-25 | the name `save_markdown` gives article `id` passes the listing filter and parses back to `id` |
| ArticleFile.FileNameInjective | simple_scraper.py:145 | distinct articles are saved under distinct file names |
| ArticleFile.ArticleFilesMembers | update_rss.py:18-19 | the filter keeps exactly the listed names ending in `.md` and starting with `latepost_article_` |
| ArticleFile.ParsedIdsMembers | update_rss.py:23-28 | an id is collected exactly when some name parses to it |
| ArticleFile.ArticleIdsMembers | update_rss.py:18-28 | an id is read from a listing exactly when a listed article file parses to it |
| ArticleFile.ArticleFilesLength | regenerate_feed.py:9-10 | the filter keeps no more names than were listed |
| ArticleFile.ParsedIdsLength | regenerate_feed.py:12-18 | the loop collects at most one id per name |
| ArticleFile.LatestIdIsMaximum | update_rss.py:30-31 | when some article file parses, there is a latest id; it bounds every parsed id and is carried by a listed file |
| ArticleFile.LatestIdWitness | update_rss.py:30-31 | a latest id always comes from a listed article file |
| ArticleFile.LatestIdNone | update_rss.py:21-31 | there is no latest id exactly when no listed article file parses |
| ArticleFile.ArticleIdsOfSavedFiles | regenerate_feed.py:9-18 | reading back a directory of saved articles keeps every file and yields their ids in order |
| ArticleFile.LatestIdAfterSave | update_rss.py:81-93 | once the file of article k + 1 is saved after latest id k, the latest id becomes k + 1 |
| Article.ArticleUrl | simple_scraper.py:36 | the article URL: `https://www.latepost.com/news/dj_detail?id=` followed by `str(id)` |
| Article.Kept | simple_scraper.py:82-93 | what one body element contributes: a stripped non-blank paragraph as text, a non-empty src as image, a stripped non-blank quote as quote, otherwise nothing |
| Article.ContentElements | simple_scraper.py:79-93 | `content_elements`: the contributions of the body's elements, in page order |
| Article.KeptAuthors | simple_scraper.py:69 | the stripped author names that are not empty, in page order |
| Article.AuthorInfo | simple_scraper.py:70 | the kept names joined with `、`, or `未知作者` when none is left |
| Article.PublishDate | simple_scraper.py:65 | the stripped date text, or `未知日期` when there is no date element |
| Article.ArticleOf | simple_scraper.py:56-102 | the record of a fetched page: None when the page, the title or the body is missing; otherwise the id, stripped title, date, author line, content elements and URL |
| Article.ExtractContentElements | simple_scraper.py:79-93 | the body loop keeps the non-blank paragraphs (stripped), non-empty images and non-blank quotes (stripped), in page order |
| Article.ContentElementsAppend | simple_scraper.py:81-93 | the filter works element by element: the elements of two body parts are those of each part, in order |
| Article.ContentElementsNonBlank | simple_scraper.py:81-93 | every kept element is a text, image or quote with non-empty content, texts and quotes already stripped; no more elements than the body had |
| Article.KeptNonBlank | simple_scraper.py:82-93 | one body element contributes only a non-blank, stripped element |
| Article.KeptWhenNonBlank | simple_scraper.py:82-93 | a paragraph or quote is dropped exactly when its text is blank, an image exactly when its src is empty |
| Article.KeptAuthorsNonBlank | simple_scraper.py:69 | every kept author name is non-empty and stripped |
| Article.KeptAuthorsWithin | simple_scraper.py:69 | a kept author name contains `、` only if a listed name does |
| Article.StripWithin | simple_scraper.py:69 | `strip()` adds no character to a text |
| Article.AuthorInfoSplits | simple_scraper.py:68-70 | the author line is `未知作者` exactly when no name is left; otherwise splitting it at `、` gives the stripped names back |
| Article.ScrapeArticle | simple_scraper.py:34-106 | None exactly when the page is missing or lacks the title or the body; otherwise the record with the article's own id and URL |
| Markdown.HeaderPieces | simple_scraper.py:116-124 | the five header pieces: `# title` with a newline, the date, author and link lines (the link line ending in a newline) and the `---` rule with a newline |
| Markdown.BodyPieces | simple_scraper.py:127-136 | the pieces of the body loop: the piece of each content element, in order |
| Markdown.PieceOf | simple_scraper.py:127-136 | the piece of one element: `content\n` for text, `![图片](content)\n` for an image, `> content\n` for a quote, none for another kind |
| Markdown.MarkdownText | simple_scraper.py:113-138 | the title, three metadata and rule pieces, then the body pieces, joined with newlines |
| Markdown.ConvertToMarkdown | simple_scraper.py:108-138 | None exactly for missing data; otherwise the header and body pieces joined with newlines |
| Markdown.PieceCount | simple_scraper.py:127-136 | the body yields one piece per element of a known kind and none for any other kind |
| Markdown.ScrapedPieceCount | simple_scraper.py:127-136 | for an article read from a page, every kept element yields a piece |
| Markdown.AllRecognizedCount | simple_scraper.py:127-136 | a body of known kinds only yields one piece per element |
| Markdown.BodyTextAppend | simple_scraper.py:127-138 | body pieces are emitted element by element, in order |
| Markdown.MarkdownLayout | simple_scraper.py:113-138 | the text is the seven header lines (title, blank, three metadata lines, blank, rule), each ended by a newline, then the body; it is never empty and starts with `#` |
| Markdown.HeaderRoundTrip | simple_scraper.py:116-124 | the title, date, author and link read back from the first seven lines, as long as none of them contains a newline |
| ScrapeRange.SucceededIds | simple_scraper.py:158-177 | `results['success']` after the ids lo..hi: the saved ids, in the order they were tried |
| ScrapeRange.FailedIds | simple_scraper.py:158-177 | `results['failed']` after the ids lo..hi: the ids not saved, in the order they were tried |
| ScrapeRange.SavedFiles | simple_scraper.py:140-177 | the output directory after the loop: each saved article's Markdown written under its file name, over the old contents |
| ScrapeRange.ScrapedIff | simple_scraper.py:165-177 | an id is saved exactly when its page gives an article and the write goes through; the empty-content guard never fires on converted Markdown |
| ScrapeRange.RangePartition | simple_scraper.py:163-177 | every id of the inclusive range is in `success` if it was saved and in `failed` if not; no id outside the range appears |
| ScrapeRange.SucceededMembers | simple_scraper.py:163-173 | `success` holds exactly the ids of the range that were saved |
| ScrapeRange.FailedMembers | simple_scraper.py:163-177 | `failed` holds exactly the ids of the range that were not saved |
| ScrapeRange.RangeAscending | simple_scraper.py:163 | both lists are strictly ascending, so no id is reported twice |
| ScrapeRange.RangeCount | simple_scraper.py:163 | together the lists hold one entry per id of the range, none for an empty range |
| ScrapeRange.SavedFilesWritten | simple_scraper.py:145-151 | after the loop every saved article's Markdown is stored under its file name |
| ScrapeRange.SavedFilesKept | simple_scraper.py:140-154 | every file the loop did not write keeps its contents |
| ScrapeRange.SavedFilesOnly | simple_scraper.py:140-154 | the loop creates no file other than those of the articles it saved |
| SimpleScraper.SimpleLatePostScraper.constructor | simple_scraper.py:9-15 | the scraper starts over the existing output directory |
| SimpleScraper.SimpleLatePostScraper.SaveMarkdown | simple_scraper.py:140-154 | missing or empty content, or a failed write, gives False and leaves the directory as it was; otherwise the file `latepost_article_{id}.md` holds the content |
| SimpleScraper.SimpleLatePostScraper.ScrapeArticlesRange | simple_scraper.py:156-182 | the results and the directory afterwards are those of trying each id of the range in turn |
| SimpleScraper.SimpleLatePostScraper.ScrapeOne | simple_scraper.py:165-177 | one iteration saves the article exactly when its page gives an article and the write goes through, and writes nothing but that article's file |
| LatePostScraper.LatePostScraper.constructor | latepost_scraper.py:14-42 | the scraper starts with no driver over the existing output directory |
| LatePostScraper.LatePostScraper.StartDriver | latepost_scraper.py:44-57 | a launched driver is a 1366×768 Chrome window; a failed launch leaves the driver as it was |
| LatePostScraper.LatePostScraper.CloseDriver | latepost_scraper.py:59-63 | afterwards there is no driver; with no driver nothing changes |
| LatePostScraper.LatePostScraper.SaveMarkdown | latepost_scraper.py:185-199 | as in the requests-based scraper, and the driver is untouched |
| LatePostScraper.LatePostScraper.ScrapeIds | latepost_scraper.py:210-225 | the loop computes the same results and directory as the requests-based scraper, with the driver untouched |
| LatePostScraper.LatePostScraper.ScrapeOne | latepost_scraper.py:213-224 | as in the requests-based scraper, with the driver untouched |
| LatePostScraper.LatePostScraper.ScrapeArticlesRange | latepost_scraper.py:201-230 | the driver is closed on every way out; a failed launch leaves no results and no file, otherwise each id of the range is tried |
| UpdateRss.ConvertAndSave | update_rss.py:88-93 | the article is saved exactly when the scrape gave data and the write went through, under the next id's file name |
| UpdateRss.UpdateRssWithSimpleScraper | update_rss.py:6-116 | raises exactly when the article directory is missing and has to be listed, and then does nothing; otherwise continues from the persisted id, or from the file names; with no id it asks only for the empty-feed fallback (with persistence); otherwise the scraper creates a missing directory, fetches id + 1 and, on success, saves it, asks the generator for it and records it in the store |
| UpdateRss.ScrapeNext | update_rss.py:77-116 | with latest id k: the scraper creates the article directory when it is missing; fetches k + 1; on a save, regenerates from k + 1 and records k + 1 in the store (with persistence); otherwise only the empty-feed fallback (with persistence) |
| UpdateRss.ScraperLatestId | update_rss.py:13-46 | the id the scraping update continues from: the persisted id when persistence has one, otherwise the largest id in the file names |
| UpdateRss.UpdateAdvances | update_rss.py:81-93 | a successful run without persistence makes the next run continue one id further |
| UpdateRss.RssId | update_rss.py:132-151 | the id `update_rss()` uses: the largest id in the file names, the persisted id only when none parses and persistence is on |
| UpdateRss.RssIdSource | update_rss.py:133-151 | an id found in the file names wins over persistence, and it is the largest one |
| UpdateRss.RssIdFallback | update_rss.py:149-151 | without a parsable file name the persisted id is used, if persistence is on |
| UpdateRss.Truthy | update_rss.py:154 | `if last_id:`: an id is there and it is not 0 |
| UpdateRss.UpdateRss | update_rss.py:118-170 | False only when there is no truthy id (0 counts as none), no feed.xml and no persistence; the generator is asked for exactly the truthy id |
| RegenerateFeed.Regenerate | regenerate_feed.py:4-46 | True whenever it returns; the generator gets the latest id (2844 when none parses) and at most 20 entries; the reported count is min(20, number of parsed names) |
| RegenerateFeed.RegenerationId | regenerate_feed.py:20-24 | the start id: the largest parsed id, 2844 when none parses |
| RegenerateFeed.RegenerationIdIsLatest | regenerate_feed.py:23-25 | with a parsable article file the start id bounds every parsed id and is carried by a listed file |
| RegenerateFeed.RegenerationIdDefault | regenerate_feed.py:20-22 | with no parsable article file the start id is 2844 |
| RegenerateFeed.ReportedCountBounds | regenerate_feed.py:44 | the reported count is between 0 and 20 and at most the number of article files and of listed names |
| RegenerateFeed.RegenerateSavedFiles | regenerate_feed.py:9-25 | a directory of saved articles regenerates from the largest of their ids and reports their number, up to 20 |
| Persistence.AuthRepoUrl | persistence.py:27-37 | there is a clone URL exactly when the URL, the token and the user name are all set and non-empty; a non-https URL is used unchanged |
| Persistence.AuthRepoUrlHttps | persistence.py:29-33 | an https URL becomes `https://{user}:{token}@` followed by the rest of the URL with every further `https://` also rewritten; the rest is unchanged when `https://` does not occur in it |
| Persistence.AuthRepoUrlIgnoresEmail | persistence.py:18-27 | setting, changing or removing GIT_EMAIL never changes the clone URL |
| Persistence.AuthRepoUrlEmptyVariable | persistence.py:27 | an empty URL, user name or token leaves no clone URL, like a missing one |
| Persistence.GitRepository.constructor | persistence.py:16-37 | the fields are the four variables, and the clone URL is the one built from them |
| Persistence.GitRepository.CloneRepository | persistence.py:54-78 | without a clone URL, None and nothing else; otherwise the temporary directory, or None when the clone fails |
| Persistence.SameZoneOrder | persistence.py:162-170 | in one zone a build date is later exactly when its fields are later, read most significant first |
| Persistence.EasternZoneEarlier | persistence.py:162-170 | of two readings of the same wall-clock time, the one whose `%z` offset lies further east is the earlier instant, even when the offsets differ by seconds or microseconds |
| Persistence.DatesOrdered | persistence.py:162-167 | an earlier calendar day has a smaller day number, across months and years, leap years included |
| Persistence.UtcMicroseconds | persistence.py:162-170 | the instant an aware datetime names: its wall-clock time minus its `%z` offset, in microseconds since 0001-01-01 UTC |
| Persistence.CompareFeedDates | persistence.py:155-180 | `('remote', content)` exactly when both dates were read and the remote instant is strictly later; otherwise `('local', None)` |
| Persistence.TiesKeepLocal | persistence.py:170-175 | equal instants keep the local feed, even when written in different zones |
| Persistence.CompareAntisymmetric | persistence.py:170-175 | with the roles of the two feeds swapped, the comparisons never both pick the remote side |
| FeedInitializer.FeedInitializer.constructor | feed_initializer.py:14-17 | the initialiser works on `feed.xml` with its current contents |
| FeedInitializer.FeedInitializer.InitializeFeed | feed_initializer.py:19-54 | answers False exactly when neither feed is there; the local feed becomes the one the decision table picks |
| FeedInitializer.InitializedFeed | feed_initializer.py:19-54 | the local feed after initialisation: the remote one when there is no local one, the local one when there is no remote one, and with both the remote one only when its build date is strictly later |
| FeedInitializer.DecisionTable | feed_initializer.py:24-54 | all five rows: take the remote feed when there is no local one; keep a lone local one; with both, take the remote one only when its build date is strictly later |
| FeedInitializer.InitializedFeedExists | feed_initializer.py:24-41 | a True answer leaves a local feed; a False answer happens only when both are missing, and leaves none |
| FeedInitializer.InitializedFeedIsNewest | feed_initializer.py:44-54 | the feed kept is the local or the remote one, and it replaces a local feed only when it is strictly newer |
| FeedInitializer.InitializeIdempotent | feed_initializer.py:19-54 | a second initialisation against the same remote feed changes nothing |
| HealthCheck.SplitUptime | health_check.py:50-53 | days·86400 + hours·3600 + minutes·60 + seconds is the elapsed time, with hours < 24 and minutes, seconds < 60 |
| HealthCheck.SplitUptimeUnique | health_check.py:51-53 | the split is the only one with those bounds |
| HealthCheck.FormatUptime | health_check.py:55 | the message `{d}天{h}小时{m}分钟{s}秒` of an uptime split |
| HealthCheck.ParseFormatUptime | health_check.py:55 | the message `{d}天{h}小时{m}分钟{s}秒` reads back as the four numbers it was written from |
| HealthCheck.UptimeMessageInjective | health_check.py:50-55 | distinct elapsed times give distinct messages |
| HealthCheck.FirstCallUptime | health_check.py:47-55 | with no time elapsed the message is `0天0小时0分钟0秒` |
| HealthCheck.HealthCheck.constructor | health_check.py:11-23 | no last check, not running, no start time; a check interval of 300 seconds unless given; SERVICE_URL or `http://localhost:5000` when it is unset |
| HealthCheck.HealthCheck.GetUptime | health_check.py:43-55 | the first call sets the start time to now, so it reports zero; every call reports the split of the time since the start |

## Left out

- The feed generator (`LatePostRSSGenerator`), the persistence store (`initialize_persistence`, `get_latest_article_id`, `save_after_update`, `_is_feed_empty`, `_ensure_feed_not_empty`) and the feed reconciliation they perform are not part of this model. Their source is not among the modelled files. `UpdateRss.Requests` records what they are asked to do; what they answer is a parameter.
- main.py, the Flask routes, the daemon self-ping thread and the scheduler are left out. They are concurrency and I/O.
- HTTP requests, Selenium page loads, BeautifulSoup selectors, random user agents and the random sleeps are not modelled. A fetched page is a `Page` value holding what the selectors found; a failed request or any caught exception is `None`.
- Git subprocess plumbing is left out: push, the main/master fallback, `get_remote_feed` and the temporary directories. The remote feed is an `Option<string>` input.
- Parsing the feeds is left out: ElementTree, and strptime of `lastBuildDate` (including its weekday name). Each feed's build date is an input, `None` when it cannot be read.
- Logging and printing are not modelled, including the warning GitRepository logs when a variable is missing.
- Scrape-range failures that raise out of the loop are not modelled; the loop's own branches are.
- Article.ScrapeArticle: takes the page as given. It does not model the delay, the request headers or the status code check apart from their outcome.
- SimpleScraper.SimpleLatePostScraper.SaveMarkdown: a failed write leaves the directory unchanged. A partial write that truncated the file before failing is not modelled.
- LatePostScraper.LatePostScraper.SaveMarkdown: the same simplification of a failed write.
- LatePostScraper.LatePostScraper.StartDriver: the driver install, the browser options and the anti-detection script are left out. Only the launch outcome and the window size are modelled. `self.driver` is assigned (latepost_scraper.py:46-49) before `set_window_size` and `execute_script` run (latepost_scraper.py:52-57). If either of those raises, the new driver stays set; the model takes both to succeed. The `finally` of the range method (latepost_scraper.py:229-230) closes such a driver anyway.
- LatePostScraper.LatePostScraper.ScrapeArticlesRange: an exception from start_driver is modelled as a `None` result. The model does not propagate it as an exception.
- UpdateRss.UpdateRssWithSimpleScraper: the scrape of the next id is an input. `Article.ScrapeArticle` models how that result comes from a page. The FileNotFoundError that `os.listdir` raises for a missing directory is the `raised` flag; the exception itself is not modelled.
- PyStr.ParseInt: the limit on the number of digits that `int()` accepts (4300 by default since Python 3.11, and configurable) is not modelled; the model accepts digit strings of any length. `str()` has the same limit, which IntToString does not model either.
- PyStr.ParseInt: only ASCII digits are modelled. Python also accepts other Unicode decimal digits, so it reads `latepost_article_５.md` as id 5 where `ArticleFile.IdOf` gives None.
- RegenerateFeed.Regenerate: a missing article directory makes `os.listdir` raise FileNotFoundError (regenerate_feed.py:9); the model always lists a directory.
- FeedInitializer.FeedInitializer.InitializeFeed: a failing open or write of `feed.xml` (feed_initializer.py:30-31, 49-50) raises; the model assumes the write goes through.
- Persistence.GitRepository.CloneRepository: the two `git config` calls after the clone are left out, including their failure when GIT_EMAIL is unset.
- Persistence.CompareFeedDates: the wall-clock fields are whole seconds, as `%S` reads them. The `%z` offset is kept exactly, down to its microseconds, and the instants are compared in microseconds.
- HealthCheck.HealthCheck.GetUptime: the clock is read as whole seconds. `total_seconds()` is a float, and the split of its floor equals the split of the float (floor division by a positive divisor), but floating-point rounding is not modelled.
- The Flask `app` that HealthCheck stores (health_check.py:19) is not modelled at all: it is only used by the endpoints and the ping worker, which are left out. `check_interval` is stored and not used further.
