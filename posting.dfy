/**
 * One round of `post_tweet`: up to `max_retries` attempts, each of which
 * takes the text `generate_content` returns, formats it and submits it,
 * stopping at the first submission whose response carries data. The text
 * (see `Content.GenerateContent`, which models how it is made) and the
 * posting service's answers are oracles: every attempt's outcomes are
 * given up front as an `Attempt`, and the wall clock as an opaque
 * timestamp string.
 */
module Posting {
  import opened Wrappers
  import Formatter

  /** The record appended to `post_history` after a successful post. */
  datatype PostRecord = PostRecord(id: string, content: string, timestamp: string)

  /** What `create_tweet` did: a response with data holding `id`, a response without data, or an exception. */
  datatype SubmitOutcome = Created(id: string) | NoData | SubmitRaised

  /**
   * The outcomes of one attempt: the value `generate_content` returned
   * (`None` when its outer handler caught an error), what `create_tweet`
   * did, and the clock reading used for the timestamp.
   */
  datatype Attempt = Attempt(generated: Option<string>, submit: SubmitOutcome, clock: string)

  /** What one attempt ends in: a new record, a skipped attempt, or an exception followed by a pause. */
  datatype AttemptResult = Posted(record: PostRecord) | Skipped | Raised

  /** One pass of the loop body of `post_tweet`; `if not content` skips both `None` and the empty string. */
  function Try(a: Attempt, tweetLength: int): AttemptResult {
    if a.generated == None || a.generated.value == [] then Skipped
    else
      var formatted := Formatter.FormatTweet(a.generated.value, tweetLength);
      match a.submit
      case Created(id) => Posted(PostRecord(id, formatted, a.clock))
      case NoData => Skipped
      case SubmitRaised => Raised
  }

  /**
   * An attempt posts exactly when the generated text is non-empty and the
   * response carries data; the record holds the response's id, the
   * formatted text and the clock reading, and that text respects the
   * length limit whenever the limit is at least 3. An attempt pauses
   * exactly when the generated text is non-empty and the submission raised:
   * empty or absent texts and responses without data never pause.
   */
  lemma TryOutcome(a: Attempt, tweetLength: int)
    ensures var content := a.generated;
      var r := Try(a, tweetLength);
      && (r.Posted? <==> content.Some? && content.value != [] && a.submit.Created?)
      && (r.Posted? ==>
            && r.record.id == a.submit.id
            && r.record.content == Formatter.FormatTweet(content.value, tweetLength)
            && r.record.timestamp == a.clock
            && (tweetLength >= 3 ==> |r.record.content| <= tweetLength))
      && (r.Raised? <==> content.Some? && content.value != [] && a.submit.SubmitRaised?)
  {
    var content := a.generated;
    if content.Some? && content.value != [] && tweetLength >= 3 {
      Formatter.FormatTweetBounded(content.value, tweetLength);
    }
  }

  /** What each attempt would end in if it were made. */
  function Results(attempts: seq<Attempt>, tweetLength: int): (rs: seq<AttemptResult>)
    ensures |rs| == |attempts|
    decreases |attempts|
  {
    if attempts == [] then []
    else [Try(attempts[0], tweetLength)] + Results(attempts[1..], tweetLength)
  }

  lemma {:induction false} ResultsAt(attempts: seq<Attempt>, tweetLength: int, i: nat)
    requires i < |attempts|
    ensures Results(attempts, tweetLength)[i] == Try(attempts[i], tweetLength)
    decreases i
  {
    if i > 0 {
      ResultsAt(attempts[1..], tweetLength, i - 1);
    }
  }

  /** The number of results that raised. */
  function CountRaised(rs: seq<AttemptResult>): (n: nat)
    ensures n <= |rs|
  {
    if rs == [] then 0
    else (if rs[0].Raised? then 1 else 0) + CountRaised(rs[1..])
  }

  lemma {:induction false} CountRaisedSnoc(rs: seq<AttemptResult>, r: AttemptResult)
    ensures CountRaised(rs + [r]) == CountRaised(rs) + (if r.Raised? then 1 else 0)
  {
    if rs != [] {
      assert (rs + [r])[1..] == rs[1..] + [r];
      CountRaisedSnoc(rs[1..], r);
    }
  }

  /** The outcome of a round: the new record if any, the attempts used, and the pauses taken. */
  datatype PostRun = PostRun(record: Option<PostRecord>, used: nat, pauses: nat)

  /**
   * The round over the results of the attempts it may make. It stops at the
   * first attempt that posts; otherwise it uses up every attempt. It posts
   * exactly when some attempt would post, the record is the first such
   * attempt's, and it pauses once for every attempt used that raised.
   */
  function Run(rs: seq<AttemptResult>): (r: PostRun)
    ensures r.used <= |rs|
    ensures r.record.Some? <==> exists i :: 0 <= i < |rs| && rs[i].Posted?
    ensures r.record.Some? ==>
      && 1 <= r.used
      && rs[r.used - 1] == Posted(r.record.value)
      && forall i :: 0 <= i < r.used - 1 ==> !rs[i].Posted?
    ensures r.record.None? ==> r.used == |rs|
    ensures r.pauses == CountRaised(rs[..r.used])
  {
    if rs == [] then PostRun(None, 0, 0)
    else
      match rs[0]
      case Posted(record) =>
        assert rs[..1] == [rs[0]];
        PostRun(Some(record), 1, 0)
      case Skipped =>
        var rest := Run(rs[1..]);
        assert rs[..rest.used + 1] == [rs[0]] + rs[1..][..rest.used];
        PostRun(rest.record, rest.used + 1, rest.pauses)
      case Raised =>
        var rest := Run(rs[1..]);
        assert rs[..rest.used + 1] == [rs[0]] + rs[1..][..rest.used];
        PostRun(rest.record, rest.used + 1, rest.pauses + 1)
  }

  /** A round whose first post is at attempt `i` uses `i + 1` attempts and the pauses of those before it. */
  lemma RunPostsAt(rs: seq<AttemptResult>, i: nat)
    requires i < |rs| && rs[i].Posted?
    requires forall j :: 0 <= j < i ==> !rs[j].Posted?
    ensures Run(rs) == PostRun(Some(rs[i].record), i + 1, CountRaised(rs[..i]))
  {
    var r := Run(rs);
    assert r.record.Some?;
    FirstPostedUnique(rs, r.used - 1, i);
    assert r.pauses == CountRaised(rs[..i]) by {
      CountRaisedSnoc(rs[..i], rs[i]);
      assert rs[..i + 1] == rs[..i] + [rs[i]];
    }
  }

  /** Only one attempt can be the first to post. */
  lemma FirstPostedUnique(rs: seq<AttemptResult>, a: nat, b: nat)
    requires a < |rs| && b < |rs| && rs[a].Posted? && rs[b].Posted?
    requires forall j :: 0 <= j < a ==> !rs[j].Posted?
    requires forall j :: 0 <= j < b ==> !rs[j].Posted?
    ensures a == b
  {
  }

  /** A round in which no attempt posts uses every attempt and pauses once per raise. */
  lemma RunExhausts(rs: seq<AttemptResult>)
    requires forall j :: 0 <= j < |rs| ==> !rs[j].Posted?
    ensures Run(rs) == PostRun(None, |rs|, CountRaised(rs))
  {
    assert rs[..|rs|] == rs;
  }

  /** A round over the first `n` attempts posts exactly when one of them would post. */
  lemma RunPostsIffSomeAttempt(attempts: seq<Attempt>, n: nat, tweetLength: int)
    requires n <= |attempts|
    ensures Run(Results(attempts[..n], tweetLength)).record.Some?
        <==> exists i :: 0 <= i < n && Try(attempts[i], tweetLength).Posted?
  {
    var rs := Results(attempts[..n], tweetLength);
    forall i | 0 <= i < n ensures rs[i] == Try(attempts[i], tweetLength) {
      ResultsAt(attempts[..n], tweetLength, i);
      assert attempts[..n][i] == attempts[i];
    }
  }

  /** `range(max_retries)` has `max(0, max_retries)` elements. */
  function AttemptCount(maxRetries: int): nat {
    if maxRetries <= 0 then 0 else maxRetries
  }

  /**
   * A round with `max_retries` at most zero makes no attempt, posts
   * nothing and never pauses, whatever the services would have answered.
   */
  lemma NoRetriesNoPost(attempts: seq<Attempt>, maxRetries: int, tweetLength: int)
    requires maxRetries <= 0
    ensures Run(Results(attempts[..AttemptCount(maxRetries)], tweetLength)) == PostRun(None, 0, 0)
  {
    assert attempts[..AttemptCount(maxRetries)] == [];
  }

  /**
   * A round whose attempts all fail in ways that do not raise (no text, or
   * no data in the response) posts nothing and never pauses.
   */
  lemma {:induction false} QuietFailures(attempts: seq<Attempt>, tweetLength: int)
    requires forall i :: 0 <= i < |attempts| ==> Try(attempts[i], tweetLength).Skipped?
    ensures Run(Results(attempts, tweetLength)) == PostRun(None, |attempts|, 0)
  {
    var rs := Results(attempts, tweetLength);
    forall i | 0 <= i < |rs| ensures rs[i].Skipped? {
      ResultsAt(attempts, tweetLength, i);
    }
    QuietRun(rs);
  }

  lemma {:induction false} QuietRun(rs: seq<AttemptResult>)
    requires forall i :: 0 <= i < |rs| ==> rs[i].Skipped?
    ensures Run(rs) == PostRun(None, |rs|, 0)
  {
    if rs != [] {
      QuietRun(rs[1..]);
    }
  }
}
