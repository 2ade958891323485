/**
 * The bot object: its configuration, its post history (a list it appends
 * to) and its engagement history (a dictionary it inserts into), with the
 * two operations that change them, `post_tweet` and `engage_with_community`.
 */
module Bot {
  import opened Wrappers
  import Content
  import Posting
  import Engagement

  /** The integer settings read by `load_config`. */
  datatype Config = Config(
    dailyPostCount: int, engagementCount: int, minEngagementFollowers: int,
    maxRetries: int, tweetLength: int)

  /** The settings when no environment variable overrides them. */
  const Defaults: Config := Config(3, 2, 100, 3, 240)

  /**
   * The content of a state file that `load_state` read; either key may be
   * missing. JSON object keys are strings, so the engagement history comes
   * back keyed by strings.
   */
  datatype SavedState = SavedState(
    engagementHistory: Option<map<string, Engagement.EngagementRecord>>,
    postHistory: Option<seq<Posting.PostRecord>>)

  class TwitterBot {
    const config: Config
    var postHistory: seq<Posting.PostRecord>
    var engagementHistory: Engagement.History

    /**
     * Start with empty histories, then take those of the state file when
     * one was read; a key missing from the file leaves its history empty.
     * Every loaded engagement entry keeps its string key.
     */
    constructor(config: Config, saved: Option<SavedState>)
      ensures this.config == config
      ensures saved.None? ==> postHistory == [] && engagementHistory == map[]
      ensures saved.Some? ==>
        && postHistory == (if saved.value.postHistory.Some? then saved.value.postHistory.value else [])
        && engagementHistory == (if saved.value.engagementHistory.Some? then Engagement.LoadHistory(saved.value.engagementHistory.value) else map[])
    {
      this.config := config;
      postHistory := [];
      engagementHistory := map[];
      if saved.Some? {
        engagementHistory := if saved.value.engagementHistory.Some? then Engagement.LoadHistory(saved.value.engagementHistory.value) else map[];
        postHistory := if saved.value.postHistory.Some? then saved.value.postHistory.value else [];
      }
    }

    /**
     * `post_tweet`: makes up to `max_retries` attempts, in order, and stops
     * at the first one whose response carries data, appending its record.
     * `pauses` is the number of five-second pauses taken. The outcome is
     * that of `Posting.Run` over the attempts it may make: it posts exactly
     * when one of them would post, the appended record is the first such
     * attempt's, nothing is appended otherwise, and with `max_retries <= 0`
     * nothing is attempted.
     */
    method PostTweet(attempts: seq<Posting.Attempt>) returns (posted: bool, pauses: nat)
      requires Posting.AttemptCount(config.maxRetries) <= |attempts|
      modifies this`postHistory
      ensures var n := Posting.AttemptCount(config.maxRetries);
        var run := Posting.Run(Posting.Results(attempts[..n], config.tweetLength));
        && posted == run.record.Some?
        && pauses == run.pauses
        && postHistory == old(postHistory) + (if posted then [run.record.value] else [])
      ensures posted <==> exists i :: 0 <= i < Posting.AttemptCount(config.maxRetries)
                                  && Posting.Try(attempts[i], config.tweetLength).Posted?
      ensures config.maxRetries <= 0 ==> !posted && pauses == 0 && postHistory == old(postHistory)
    {
      var n := Posting.AttemptCount(config.maxRetries);
      ghost var rs := Posting.Results(attempts[..n], config.tweetLength);
      posted, pauses := false, 0;
      var i := 0;
      while i < n
        invariant 0 <= i <= n
        invariant postHistory == old(postHistory)
        invariant forall j :: 0 <= j < i ==> !rs[j].Posted?
        invariant pauses == Posting.CountRaised(rs[..i])
      {
        var result := Posting.Try(attempts[i], config.tweetLength);
        Posting.ResultsAt(attempts[..n], config.tweetLength, i);
        assert attempts[..n][i] == attempts[i];
        assert rs[i] == result;
        match result {
          case Posted(record) =>
            postHistory := postHistory + [record];
            posted := true;
            Posting.RunPostsAt(rs, i);
            Posting.RunPostsIffSomeAttempt(attempts, n, config.tweetLength);
            return;
          case Skipped =>
          case Raised =>
            pauses := pauses + 1;
        }
        assert !rs[i].Posted?;
        assert rs[..i + 1] == rs[..i] + [rs[i]];
        Posting.CountRaisedSnoc(rs[..i], rs[i]);
        i := i + 1;
      }
      Posting.RunExhausts(rs);
      Posting.RunPostsIffSomeAttempt(attempts, n, config.tweetLength);
      assert rs[..n] == rs;

    }

    /**
     * `engage_with_community`: scans the search results of every topic in
     * list order, liking, retweeting and recording each new item whose like
     * count is strictly above `min_engagement_followers`, until the end or
     * the first exception. `liked` lists the ids `like` was called on. The
     * new history is that of `Engagement.Engage`: every old entry is kept
     * unchanged and every new key is a liked id with a `like_retweet` entry.
     */
    method EngageWithCommunity(searches: seq<Engagement.SearchOutcome>) returns (liked: seq<Engagement.TweetId>)
      requires |searches| == |Content.Topics|
      modifies this`engagementHistory
      ensures var r := Engagement.Engage(old(engagementHistory), searches, config.minEngagementFollowers, config.engagementCount);
        engagementHistory == r.history && liked == r.liked
      ensures Engagement.Kept(old(engagementHistory), engagementHistory)
      ensures forall k :: k in engagementHistory && k !in old(engagementHistory) ==>
                k.Searched? && k.id in liked && engagementHistory[k].kind == Engagement.LikeRetweet
      ensures forall i :: 0 <= i < |liked| ==> Engagement.Searched(liked[i]) !in old(engagementHistory)
    {
      var threshold, count := config.minEngagementFollowers, config.engagementCount;
      ghost var goal := Engagement.Engage(engagementHistory, searches, threshold, count);
      Engagement.EngageGrows(engagementHistory, searches, threshold, count);
      liked := [];
      var stopped := false;
      var t := 0;
      while t < |searches| && !stopped
        invariant 0 <= t <= |searches|
        invariant goal == Engagement.ScanTopics(Engagement.Scan(engagementHistory, liked, stopped), searches[t..], threshold, count)
      {
        match searches[t] {
          case SearchRaised =>
            stopped := true;
          case Results(items) =>
            var j := 0;
            while j < |items| && !stopped
              invariant 0 <= j <= |items|
              invariant goal == Engagement.ScanTopics(
                Engagement.ScanItems(Engagement.Scan(engagementHistory, liked, stopped), items[j..], threshold, count),
                searches[t + 1..], threshold, count)
            {
              var c := items[j];
              assert items[j..][1..] == items[j + 1..];
              if Engagement.Searched(c.id) !in engagementHistory && c.likeCount > threshold {
                liked := liked + [c.id];
                match c.action {
                  case Acted =>
                    engagementHistory := engagementHistory[Engagement.Searched(c.id) := Engagement.EngagementRecord(Engagement.LikeRetweet, c.clock)];
                    if count <= 0 {
                      stopped := true;
                    }
                  case LikeRaised =>
                    stopped := true;
                  case RetweetRaised =>
                    stopped := true;
                }
              }
              j := j + 1;
            }
        }
        t := t + 1;
      }
    }
  }
}
