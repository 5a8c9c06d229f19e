/**
 * The article file name codec: save_markdown writes an article to
 * latepost_article_{id}.md, and the update scripts list the article directory,
 * keep the names of that shape, read the ids back and take the largest.
 */
module ArticleFile {
  import opened Wrappers
  import opened PyStr

  const PREFIX := "latepost_article_"
  const SUFFIX := ".md"

  /** The name save_markdown gives the file of article `id`. */
  function FileName(id: int): string {
    PREFIX + IntToString(id) + SUFFIX
  }

  /** The listing filter: f.endswith('.md') and f.startswith('latepost_article_'). */
  predicate IsArticleFile(name: string) {
    EndsWith(name, SUFFIX) && StartsWith(name, PREFIX)
  }

  /**
   * int(name.replace('latepost_article_', '').replace('.md', '')), None where
   * int() raises ValueError. Both replacements remove every occurrence.
   */
  function IdOf(name: string): Option<int> {
    ParseInt(ReplaceAll(ReplaceAll(name, PREFIX, ""), SUFFIX, ""))
  }

  /** The comprehension that keeps the article files of a directory listing, in listing order. */
  function ArticleFiles(listing: seq<string>): seq<string> {
    if listing == [] then []
    else
      var name := listing[|listing| - 1];
      ArticleFiles(listing[..|listing| - 1]) + (if IsArticleFile(name) then [name] else [])
  }

  /** The ids the parsing loop appends, in order; a name that is not an integer is skipped. */
  function ParsedIds(files: seq<string>): seq<int> {
    if files == [] then []
    else
      var id := IdOf(files[|files| - 1]);
      ParsedIds(files[..|files| - 1]) + (if id.Some? then [id.value] else [])
  }

  /** Every id read from the article files of a listing. */
  function ArticleIds(listing: seq<string>): seq<int> {
    ParsedIds(ArticleFiles(listing))
  }

  /** max(ids) */
  function Max(ids: seq<int>): (m: int)
    requires |ids| > 0
    ensures m in ids
    ensures forall i :: 0 <= i < |ids| ==> ids[i] <= m
  {
    if |ids| == 1 then ids[0]
    else
      var m := Max(ids[..|ids| - 1]);
      if ids[|ids| - 1] > m then ids[|ids| - 1] else m
  }

  /** The latest article id the listing shows: the largest parsed id, or None when no name parses. */
  function LatestId(listing: seq<string>): Option<int> {
    var ids := ArticleIds(listing);
    if ids == [] then None else Some(Max(ids))
  }

  /** The parsing loop over the filtered names: try int(), append on success, continue on ValueError. */
  method CollectArticleIds(existing: seq<string>) returns (ids: seq<int>)
    ensures ids == ParsedIds(existing)
  {
    ids := [];
    for k := 0 to |existing|
      invariant ids == ParsedIds(existing[..k])
    {
      assert existing[..k + 1][..k] == existing[..k];
      var id := IdOf(existing[k]);
      if id.Some? {
        ids := ids + [id.value];
      }
    }
    assert existing[..|existing|] == existing;
  }

  /** Filter the listing, parse the ids, take their maximum when there is one. */
  method LatestArticleId(listing: seq<string>) returns (last: Option<int>)
    ensures last == LatestId(listing)
  {
    var existing := ArticleFiles(listing);
    var ids := CollectArticleIds(existing);
    last := if ids == [] then None else Some(Max(ids));
  }

  /** There is no latest id exactly when no article file of the listing has a name that parses. */
  lemma LatestIdNone(listing: seq<string>)
    ensures LatestId(listing).None? <==> forall n :: n in listing && IsArticleFile(n) ==> IdOf(n).None?
  {
    if LatestId(listing).Some? {
      LatestIdWitness(listing);
    } else {
      forall n | n in listing && IsArticleFile(n)
        ensures IdOf(n).None?
      {
        if IdOf(n).Some? {
          LatestIdIsMaximum(listing, n);
        }
      }
    }
  }

  /** A latest id is always read from some listed article file. */
  lemma LatestIdWitness(listing: seq<string>)
    requires LatestId(listing).Some?
    ensures exists n :: n in listing && IsArticleFile(n) && IdOf(n) == LatestId(listing)
  {
    var ids := ArticleIds(listing);
    ArticleIdsMembers(listing);
    assert Max(ids) in ids;
  }

  /** Round trip: the name written for article `id` passes the filter and parses back to `id`. */
  lemma FileNameRoundTrip(id: int)
    ensures IsArticleFile(FileName(id))
    ensures IdOf(FileName(id)) == Some(id)
  {
    var digits := IntToString(id);
    IntToStringChars(id);
    var name := FileName(id);
    assert name[..|PREFIX|] == PREFIX;
    assert name[|name| - |SUFFIX|..] == SUFFIX;
    assert name == PREFIX + (digits + SUFFIX);
    ReplaceAllLeading(PREFIX, digits + SUFFIX, "");
    assert PREFIX[0] == 'l';
    assert 'l' !in digits + SUFFIX by {
      forall k | 0 <= k < |digits + SUFFIX| ensures (digits + SUFFIX)[k] != 'l' {
        if k < |digits| {
          assert (digits + SUFFIX)[k] == digits[k];
        }
      }
    }
    ReplaceAllAbsent(digits + SUFFIX, PREFIX, "");
    assert ReplaceAll(name, PREFIX, "") == digits + SUFFIX;
    assert SUFFIX[0] == '.';
    assert '.' !in digits;
    ReplaceAllTrailing(digits, SUFFIX, "");
    assert ReplaceAll(digits + SUFFIX, SUFFIX, "") == digits;
    ParseIntOfIntToString(id);
  }

  /** Distinct articles are saved under distinct names. */
  lemma FileNameInjective(a: int, b: int)
    requires FileName(a) == FileName(b)
    ensures a == b
  {
    FileNameRoundTrip(a);
    FileNameRoundTrip(b);
  }

  /** The filter keeps exactly the listed names of the article-file shape. */
  lemma {:induction false} ArticleFilesMembers(listing: seq<string>)
    ensures forall n :: n in ArticleFiles(listing) <==> n in listing && IsArticleFile(n)
    decreases |listing|
  {
    if listing != [] {
      var init := listing[..|listing| - 1];
      ArticleFilesMembers(init);
      assert listing == init + [listing[|listing| - 1]];
    }
  }

  /** The parsing loop yields exactly the ids of the names that parse. */
  lemma {:induction false} ParsedIdsMembers(files: seq<string>)
    ensures forall x :: x in ParsedIds(files) <==> exists n :: n in files && IdOf(n) == Some(x)
    decreases |files|
  {
    if files != [] {
      var init := files[..|files| - 1];
      var last := files[|files| - 1];
      ParsedIdsMembers(init);
      assert files == init + [last];
      forall x | x in ParsedIds(files) ensures exists n :: n in files && IdOf(n) == Some(x) {
        if x !in ParsedIds(init) {
          assert last in files;
        }
      }
    }
  }

  /** The filter keeps at most every name. */
  lemma {:induction false} ArticleFilesLength(listing: seq<string>)
    ensures |ArticleFiles(listing)| <= |listing|
    decreases |listing|
  {
    if listing != [] {
      ArticleFilesLength(listing[..|listing| - 1]);
    }
  }

  /** The parsing loop appends at most one id per name. */
  lemma {:induction false} ParsedIdsLength(files: seq<string>)
    ensures |ParsedIds(files)| <= |files|
    decreases |files|
  {
    if files != [] {
      ParsedIdsLength(files[..|files| - 1]);
    }
  }

  /** An id is read from a listing exactly when some listed article file names it. */
  lemma ArticleIdsMembers(listing: seq<string>)
    ensures forall x :: x in ArticleIds(listing) <==>
      exists n :: n in listing && IsArticleFile(n) && IdOf(n) == Some(x)
  {
    ArticleFilesMembers(listing);
    ParsedIdsMembers(ArticleFiles(listing));
  }

  /** max() is the largest parsed id, and the listing holds a file for it. */
  lemma LatestIdIsMaximum(listing: seq<string>, n: string)
    requires n in listing && IsArticleFile(n) && IdOf(n).Some?
    ensures LatestId(listing).Some?
    ensures IdOf(n).value <= LatestId(listing).value
    ensures exists f :: f in listing && IsArticleFile(f) && IdOf(f) == LatestId(listing)
  {
    ArticleIdsMembers(listing);
    var ids := ArticleIds(listing);
    assert IdOf(n).value in ids;
    var m := Max(ids);
    assert m in ids;
  }

  /** The listing of a directory that holds the files saved for `ids`, in that order. */
  function SavedListing(ids: seq<int>): seq<string> {
    if ids == [] then [] else SavedListing(ids[..|ids| - 1]) + [FileName(ids[|ids| - 1])]
  }

  /** Reading back the files saved for `ids` yields `ids` again. */
  lemma {:induction false} ArticleIdsOfSavedFiles(ids: seq<int>)
    ensures ArticleFiles(SavedListing(ids)) == SavedListing(ids)
    ensures ArticleIds(SavedListing(ids)) == ids
    decreases |ids|
  {
    if ids != [] {
      var init, x := ids[..|ids| - 1], ids[|ids| - 1];
      var f := FileName(x);
      var before := SavedListing(init);
      ArticleIdsOfSavedFiles(init);
      FileNameRoundTrip(x);
      assert SavedListing(ids) == before + [f];
      ArticleFilesSnoc(before, f);
      ParsedIdsSnoc(before, f);
      LastSplit(ids);
      calc {
        ArticleIds(SavedListing(ids));
        ParsedIds(before + [f]);
        ParsedIds(before) + [x];
        ArticleIds(before) + [x];
        init + [x];
        ids;
      }
    }
  }

  lemma LastSplit(s: seq<int>)
    requires s != []
    ensures s[..|s| - 1] + [s[|s| - 1]] == s
  {
  }

  /** The filter takes one more name at a time. */
  lemma ArticleFilesSnoc(listing: seq<string>, n: string)
    ensures ArticleFiles(listing + [n]) == ArticleFiles(listing) + (if IsArticleFile(n) then [n] else [])
  {
    assert (listing + [n])[..|listing|] == listing;
  }

  /** The parsing loop takes one more name at a time. */
  lemma ParsedIdsSnoc(files: seq<string>, n: string)
    ensures ParsedIds(files + [n]) == ParsedIds(files) + (if IdOf(n).Some? then [IdOf(n).value] else [])
  {
    assert (files + [n])[..|files|] == files;
  }

  /**
   * Saving the article after the latest one makes it the latest: the next run
   * that reads the listing continues from there.
   */
  lemma LatestIdAfterSave(listing: seq<string>, k: int)
    requires LatestId(listing) == Some(k)
    ensures LatestId(listing + [FileName(k + 1)]) == Some(k + 1)
  {
    var f := FileName(k + 1);
    var all := listing + [f];
    FileNameRoundTrip(k + 1);
    assert all[..|all| - 1] == listing;
    var files := ArticleFiles(listing);
    assert ArticleFiles(all) == files + [f];
    assert (files + [f])[..|files + [f]| - 1] == files;
    var ids := ParsedIds(files);
    assert ArticleIds(all) == ids + [k + 1];
    assert (ids + [k + 1])[..|ids + [k + 1]| - 1] == ids;
  }
}
