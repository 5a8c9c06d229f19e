/**
 * What scrape_articles_range computes, in both scrapers: every id of the
 * inclusive range is scraped, converted and saved in turn, and lands in
 * `success` when the file was written and in `failed` otherwise.
 *
 * The bookkeeping is stated over `saved`, which says for each id whether its
 * iteration saved a file, and `text`, the Markdown it wrote; Outcome and
 * ArticleText give the two for the scrape pipeline.
 */
module ScrapeRange {
  import opened Wrappers
  import opened Article
  import opened Markdown
  import opened ArticleFile

  /** The {'success': [...], 'failed': [...]} dictionary. */
  datatype RangeResults = RangeResults(success: seq<int>, failed: seq<int>)

  /** save_markdown's verdict: False for missing or empty content, otherwise whether the write went through. */
  predicate SaveSucceeds(content: Option<string>, writeOk: bool) {
    content.Some? && content.value != [] && writeOk
  }

  /**
   * Whether the iteration for article `id` saves a file: the page (None when the
   * request failed) gives article data, and the write goes through.
   */
  predicate Scraped(id: int, pages: int -> Option<Page>, writeOk: int -> bool) {
    ArticleOf(id, pages(id)).Some? && writeOk(id)
  }

  /**
   * The iteration as the loop runs it: scrape, convert, save. Since the Markdown of
   * an article is never empty, save_markdown's empty-content guard never fires on it,
   * and the id is saved exactly when it is Scraped.
   */
  lemma ScrapedIff(id: int, pages: int -> Option<Page>, writeOk: int -> bool)
    ensures Scraped(id, pages, writeOk) <==>
      var data := ArticleOf(id, pages(id));
      data.Some? && SaveSucceeds(Some(MarkdownText(data.value)), writeOk(id))
  {
    var data := ArticleOf(id, pages(id));
    if data.Some? {
      MarkdownLayout(data.value);
    }
  }

  function Outcome(pages: int -> Option<Page>, writeOk: int -> bool): int -> bool {
    id => Scraped(id, pages, writeOk)
  }

  /** The Markdown written for article `id` (empty when there is no article). */
  function ArticleText(pages: int -> Option<Page>): int -> string {
    id => var data := ArticleOf(id, pages(id)); if data.Some? then MarkdownText(data.value) else []
  }

  /** results['success'] after the ids lo..hi, in the order they were tried. */
  function SucceededIds(lo: int, hi: int, saved: int -> bool): seq<int>
    decreases hi - lo
  {
    if hi < lo then []
    else SucceededIds(lo, hi - 1, saved) + (if saved(hi) then [hi] else [])
  }

  /** results['failed'] after the ids lo..hi, in the order they were tried. */
  function FailedIds(lo: int, hi: int, saved: int -> bool): seq<int>
    decreases hi - lo
  {
    if hi < lo then []
    else FailedIds(lo, hi - 1, saved) + (if saved(hi) then [] else [hi])
  }

  /** The output directory after the ids lo..hi: each saved article written under its file name. */
  function SavedFiles(files: map<string, string>, lo: int, hi: int, saved: int -> bool, text: int -> string): map<string, string>
    decreases hi - lo
  {
    if hi < lo then files
    else
      var before := SavedFiles(files, lo, hi - 1, saved, text);
      if saved(hi) then before[FileName(hi) := text(hi)] else before
  }

  /** Trying one more id extends exactly one of the two lists. */
  lemma RangeStep(lo: int, id: int, saved: int -> bool)
    requires lo <= id
    ensures SucceededIds(lo, id, saved) == SucceededIds(lo, id - 1, saved) + (if saved(id) then [id] else [])
    ensures FailedIds(lo, id, saved) == FailedIds(lo, id - 1, saved) + (if saved(id) then [] else [id])
  {
  }

  /** Trying one more id writes at most its own file. */
  lemma SavedFilesStep(files: map<string, string>, lo: int, id: int, saved: int -> bool, text: int -> string)
    requires lo <= id
    ensures SavedFiles(files, lo, id, saved, text) ==
      var before := SavedFiles(files, lo, id - 1, saved, text);
      if saved(id) then before[FileName(id) := text(id)] else before
  {
  }

  /** An empty range tries nothing and writes nothing. */
  lemma RangeEmpty(files: map<string, string>, lo: int, hi: int, saved: int -> bool, text: int -> string)
    requires hi < lo
    ensures SucceededIds(lo, hi, saved) == [] && FailedIds(lo, hi, saved) == []
    ensures SavedFiles(files, lo, hi, saved, text) == files
  {
  }

  predicate StrictlyIncreasing(s: seq<int>) {
    forall i, j :: 0 <= i < j < |s| ==> s[i] < s[j]
  }

  /** Every id of [lo, hi] is in exactly one of the two lists, according to whether it was saved, and no other id appears. */
  lemma RangePartition(lo: int, hi: int, saved: int -> bool)
    ensures forall i :: lo <= i <= hi ==>
      && (i in SucceededIds(lo, hi, saved) <==> saved(i))
      && (i in FailedIds(lo, hi, saved) <==> !saved(i))
    ensures forall x :: x in SucceededIds(lo, hi, saved) ==> lo <= x <= hi
    ensures forall x :: x in FailedIds(lo, hi, saved) ==> lo <= x <= hi
  {
    SucceededMembers(lo, hi, saved);
    FailedMembers(lo, hi, saved);
  }

  /** results['success'] holds exactly the saved ids of the range. */
  lemma {:induction false} SucceededMembers(lo: int, hi: int, saved: int -> bool)
    ensures forall x :: x in SucceededIds(lo, hi, saved) <==> lo <= x <= hi && saved(x)
    decreases hi - lo
  {
    if lo <= hi {
      SucceededMembers(lo, hi - 1, saved);
      RangeStep(lo, hi, saved);
    }
  }

  /** results['failed'] holds exactly the ids of the range that were not saved. */
  lemma {:induction false} FailedMembers(lo: int, hi: int, saved: int -> bool)
    ensures forall x :: x in FailedIds(lo, hi, saved) <==> lo <= x <= hi && !saved(x)
    decreases hi - lo
  {
    if lo <= hi {
      FailedMembers(lo, hi - 1, saved);
      RangeStep(lo, hi, saved);
    }
  }

  /** Both lists are in ascending order, so no id is reported twice. */
  lemma {:induction false} RangeAscending(lo: int, hi: int, saved: int -> bool)
    ensures StrictlyIncreasing(SucceededIds(lo, hi, saved))
    ensures StrictlyIncreasing(FailedIds(lo, hi, saved))
    decreases hi - lo
  {
    if lo <= hi {
      RangeAscending(lo, hi - 1, saved);
      SucceededMembers(lo, hi - 1, saved);
      FailedMembers(lo, hi - 1, saved);
      RangeStep(lo, hi, saved);
      IncreasingAppend(SucceededIds(lo, hi - 1, saved), hi);
      IncreasingAppend(FailedIds(lo, hi - 1, saved), hi);
    }
  }

  /** Together the lists report every id of the range once: an empty range reports nothing. */
  lemma {:induction false} RangeCount(lo: int, hi: int, saved: int -> bool)
    ensures |SucceededIds(lo, hi, saved)| + |FailedIds(lo, hi, saved)| == if hi < lo then 0 else hi - lo + 1
    decreases hi - lo
  {
    if lo <= hi {
      RangeCount(lo, hi - 1, saved);
    }
  }

  lemma IncreasingAppend(s: seq<int>, x: int)
    requires StrictlyIncreasing(s)
    requires forall y :: y in s ==> y < x
    ensures StrictlyIncreasing(s + [x])
  {
    var t := s + [x];
    forall i, j | 0 <= i < j < |t|
      ensures t[i] < t[j]
    {
      assert t[i] == s[i];
      if j < |s| {
        assert t[j] == s[j];
      } else {
        assert s[i] in s;
      }
    }
  }

  /** The file an iteration wrote: a name that reads back as a saved id of the range and is that id's file name. */
  predicate WrittenBy(name: string, lo: int, hi: int, saved: int -> bool) {
    var id := IdOf(name);
    id.Some? && lo <= id.value <= hi && name == FileName(id.value) && saved(id.value)
  }

  /** After the loop the directory holds each saved article's Markdown under its file name. */
  lemma {:induction false} SavedFilesWritten(files: map<string, string>, lo: int, hi: int, saved: int -> bool, text: int -> string)
    ensures forall i :: lo <= i <= hi && saved(i) ==>
      FileName(i) in SavedFiles(files, lo, hi, saved, text) && SavedFiles(files, lo, hi, saved, text)[FileName(i)] == text(i)
    decreases hi - lo
  {
    if lo <= hi {
      SavedFilesWritten(files, lo, hi - 1, saved, text);
      forall i | lo <= i < hi && saved(i)
        ensures FileName(i) != FileName(hi)
      {
        if FileName(i) == FileName(hi) {
          FileNameInjective(i, hi);
        }
      }
    }
  }

  /** Every file the loop did not write is as it was. */
  lemma {:induction false} SavedFilesKept(files: map<string, string>, lo: int, hi: int, saved: int -> bool, text: int -> string)
    ensures forall name :: name in files && !WrittenBy(name, lo, hi, saved) ==>
      name in SavedFiles(files, lo, hi, saved, text) && SavedFiles(files, lo, hi, saved, text)[name] == files[name]
    decreases hi - lo
  {
    if lo <= hi {
      SavedFilesKept(files, lo, hi - 1, saved, text);
      FileNameRoundTrip(hi);
      assert saved(hi) ==> WrittenBy(FileName(hi), lo, hi, saved);
    }
  }

  /** The loop creates no file other than those of the articles it saved. */
  lemma {:induction false} SavedFilesOnly(files: map<string, string>, lo: int, hi: int, saved: int -> bool, text: int -> string)
    ensures forall name :: name in SavedFiles(files, lo, hi, saved, text) ==>
      name in files || WrittenBy(name, lo, hi, saved)
    decreases hi - lo
  {
    if lo <= hi {
      SavedFilesOnly(files, lo, hi - 1, saved, text);
      FileNameRoundTrip(hi);
      assert saved(hi) ==> WrittenBy(FileName(hi), lo, hi, saved);
    }
  }
}
