/**
 * FeedInitializer: decides at start-up which feed.xml to begin from. The local
 * feed is the state it changes; the remote feed (what get_remote_feed returns)
 * and the lastBuildDate each feed carries are inputs.
 */
module FeedInitializer {
  import opened Wrappers
  import opened Persistence

  const FEED_PATH := "feed.xml"

  /**
   * The local feed after initialize_feed: with no local feed the remote one
   * when there is one; with a local feed the remote one only when
   * compare_feed_dates finds it newer, the local one otherwise. `dateOf` reads
   * the lastBuildDate of a feed's text (None when it cannot be read).
   */
  function InitializedFeed(local: Option<string>, remote: Option<string>, dateOf: string -> Option<BuildDate>): Option<string> {
    if local.None? then
      if Present(remote) then remote else None
    else if !Present(remote) then local
    else
      var (source, content) := CompareFeedDates(dateOf(local.value), dateOf(remote.value), remote.value);
      if source == Remote && Present(content) then content else local
  }

  /** The answer of initialize_feed: False only when neither feed is there. */
  predicate Initialized(local: Option<string>, remote: Option<string>) {
    local.Some? || Present(remote)
  }

  class FeedInitializer {
    const feedPath: string
    /** The contents of feed.xml, None when the file does not exist. */
    var localFeed: Option<string>

    constructor (existing: Option<string>)
      ensures feedPath == FEED_PATH && localFeed == existing
    {
      feedPath := FEED_PATH;
      localFeed := existing;
    }

    /**
     * initialize_feed(). `remote` is what get_remote_feed() answers (None when
     * there is no clone URL, the clone fails or the repository has no feed.xml).
     */
    method InitializeFeed(remote: Option<string>, dateOf: string -> Option<BuildDate>) returns (ok: bool)
      modifies this
      ensures ok == Initialized(old(localFeed), remote)
      ensures localFeed == InitializedFeed(old(localFeed), remote, dateOf)
    {
      if localFeed.None? {
        if Present(remote) {
          localFeed := remote;
          return true;
        } else {
          return false;
        }
      }
      if !Present(remote) {
        return true;
      }
      var (source, content) := CompareFeedDates(dateOf(localFeed.value), dateOf(remote.value), remote.value);
      if source == Remote && Present(content) {
        localFeed := content;
      }
      return true;
    }
  }

  /** The five rows of the decision table, in terms of the two build dates. */
  lemma DecisionTable(local: Option<string>, remote: Option<string>, dateOf: string -> Option<BuildDate>)
    ensures local.None? && Present(remote) ==> InitializedFeed(local, remote, dateOf) == remote
    ensures local.None? && !Present(remote) ==> InitializedFeed(local, remote, dateOf) == None
    ensures local.Some? && !Present(remote) ==> InitializedFeed(local, remote, dateOf) == local
    ensures local.Some? && Present(remote) ==>
      var l := dateOf(local.value);
      var r := dateOf(remote.value);
      InitializedFeed(local, remote, dateOf) ==
        if l.Some? && r.Some? && UtcMicroseconds(r.value) > UtcMicroseconds(l.value) then remote else local
  {
  }

  /** A True answer leaves a local feed behind; a False one leaves none, and happens only when both sides are missing. */
  lemma InitializedFeedExists(local: Option<string>, remote: Option<string>, dateOf: string -> Option<BuildDate>)
    ensures Initialized(local, remote) <==> InitializedFeed(local, remote, dateOf).Some?
    ensures !Initialized(local, remote) ==> local.None? && !Present(remote)
  {
  }

  /** The feed kept is one of the two, and it is the remote one only when that is new or strictly newer. */
  lemma InitializedFeedIsNewest(local: Option<string>, remote: Option<string>, dateOf: string -> Option<BuildDate>)
    ensures var f := InitializedFeed(local, remote, dateOf);
      f == local || f == remote
    ensures var f := InitializedFeed(local, remote, dateOf);
      f != local ==>
        && Present(remote) && f == remote
        && (local.None? || (dateOf(local.value).Some? && dateOf(remote.value).Some? &&
                            UtcMicroseconds(dateOf(remote.value).value) > UtcMicroseconds(dateOf(local.value).value)))
  {
  }

  /** Running the initialisation again against the same remote feed changes nothing more. */
  lemma InitializeIdempotent(local: Option<string>, remote: Option<string>, dateOf: string -> Option<BuildDate>)
    ensures InitializedFeed(InitializedFeed(local, remote, dateOf), remote, dateOf) == InitializedFeed(local, remote, dateOf)
  {
    var once := InitializedFeed(local, remote, dateOf);
    if once.Some? && Present(remote) && once == remote {
      var d := dateOf(remote.value);
      assert d.Some? ==> !(UtcMicroseconds(d.value) > UtcMicroseconds(d.value));
    }
  }
}
