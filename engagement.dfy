/**
 * The scan of `engage_with_community`: for each topic in list order, the
 * search results are visited in order; an item is liked and retweeted when
 * its id is not yet a key of the engagement history and its like count is
 * strictly above the threshold, and each such item gets one history entry.
 * Any exception ends the whole scan, keeping the entries made before it.
 *
 * Keys are tagged by origin. An id this run engaged with is an integer,
 * as the search results carry it. A key read back from the state file is
 * a string, because JSON object keys always are. So an entry loaded at
 * start-up never matches a searched id, and a tweet engaged with before a
 * restart can be engaged with again.
 *
 * Search, like and retweet are oracles: their outcomes are given up front.
 * The pause `time.sleep(60 / engagement_count)` raises exactly when
 * `engagement_count <= 0` (division by zero, or a negative duration), so
 * such a count stops the scan right after its first recorded entry.
 */
module Engagement {
  /** Tweet ids as the search results carry them. */
  type TweetId = int

  /** The type string of every entry the scan records. */
  const LikeRetweet: string := "like_retweet"

  /** The value stored under a tweet id in `engagement_history`. */
  datatype EngagementRecord = EngagementRecord(kind: string, timestamp: string)

  /**
   * A key of `engagement_history`: a tweet id recorded by this run, or a key
   * of the state file, which `json.load` always gives as a string.
   */
  datatype Key = Searched(id: TweetId) | Loaded(name: string)

  type History = map<Key, EngagementRecord>

  /** The history that `load_state` reads from the state file's `engagement_history` object. */
  function LoadHistory(file: map<string, EngagementRecord>): (h: History)
    ensures forall k :: k in h <==> k.Loaded? && k.name in file
    ensures forall name :: name in file ==> h[Loaded(name)] == file[name]
  {
    map name | name in file :: Loaded(name) := file[name]
  }

  /** What the like and retweet calls on an item did. */
  datatype ActionOutcome = Acted | LikeRaised | RetweetRaised

  /** One search result: its id and like count, the outcome of acting on it, and the clock reading. */
  datatype Candidate = Candidate(id: TweetId, likeCount: int, action: ActionOutcome, clock: string)

  /** What `search_recent_tweets` did for one topic: a list of results (possibly empty) or an exception. */
  datatype SearchOutcome = Results(items: seq<Candidate>) | SearchRaised

  /**
   * The state of a scan: the history so far, the ids the scan called `like`
   * on, in order, and whether an exception has ended the scan.
   */
  datatype Scan = Scan(history: History, liked: seq<TweetId>, stopped: bool)

  /** An item is acted on when it is new and its like count is strictly above the threshold. */
  predicate Qualifies(h: History, c: Candidate, threshold: int) {
    Searched(c.id) !in h && c.likeCount > threshold
  }

  /** The loop body for one search result, on a scan that has not stopped. */
  function Visit(s: Scan, c: Candidate, threshold: int, count: int): (r: Scan)
    ensures !Qualifies(s.history, c, threshold) ==> r == s
  {
    if !Qualifies(s.history, c, threshold) then s
    else
      match c.action
      case LikeRaised => Scan(s.history, s.liked + [c.id], true)
      case RetweetRaised => Scan(s.history, s.liked + [c.id], true)
      case Acted =>
        Scan(s.history[Searched(c.id) := EngagementRecord(LikeRetweet, c.clock)], s.liked + [c.id], count <= 0)
  }

  /**
   * Visiting a qualifying item calls `like` on it; it gets a `like_retweet`
   * entry exactly when both calls return, and no other key changes. A
   * failed call leaves the item unrecorded and ends the scan; a recorded
   * entry ends the scan exactly when the pause raises.
   */
  lemma VisitQualifying(s: Scan, c: Candidate, threshold: int, count: int)
    requires Qualifies(s.history, c, threshold)
    ensures var r := Visit(s, c, threshold, count);
      && r.liked == s.liked + [c.id]
      && (Searched(c.id) in r.history <==> c.action.Acted?)
      && (c.action.Acted? ==> r.history == s.history[Searched(c.id) := EngagementRecord(LikeRetweet, c.clock)])
      && (!c.action.Acted? ==> r.history == s.history && r.stopped)
      && (c.action.Acted? ==> (r.stopped <==> count <= 0))
  {
  }

  /** The inner loop over the results of one search. */
  function ScanItems(s: Scan, items: seq<Candidate>, threshold: int, count: int): Scan
    decreases |items|
  {
    if s.stopped || items == [] then s
    else ScanItems(Visit(s, items[0], threshold, count), items[1..], threshold, count)
  }

  /** The outer loop over the topics' searches; a failed search ends the scan. */
  function ScanTopics(s: Scan, searches: seq<SearchOutcome>, threshold: int, count: int): Scan
    decreases |searches|
  {
    if s.stopped || searches == [] then s
    else
      match searches[0]
      case SearchRaised => Scan(s.history, s.liked, true)
      case Results(items) => ScanTopics(ScanItems(s, items, threshold, count), searches[1..], threshold, count)
  }

  /** `engage_with_community` started on history `h`. */
  function Engage(h: History, searches: seq<SearchOutcome>, threshold: int, count: int): Scan {
    ScanTopics(Scan(h, [], false), searches, threshold, count)
  }

  /** The ids of the results of one search whose like count is strictly above the threshold. */
  function AboveIds(items: seq<Candidate>, threshold: int): (ids: set<TweetId>)
    ensures forall j :: 0 <= j < |items| && items[j].likeCount > threshold ==> items[j].id in ids
    ensures forall id :: id in ids ==> exists j :: 0 <= j < |items| && items[j].id == id && items[j].likeCount > threshold
    decreases |items|
  {
    if items == [] then {}
    else
      var rest := AboveIds(items[1..], threshold);
      assert forall j :: 1 <= j < |items| ==> items[j] == items[1..][j - 1];
      (if items[0].likeCount > threshold then {items[0].id} else {}) + rest
  }

  /** The ids above the threshold over every search that returned results. */
  function AboveAll(searches: seq<SearchOutcome>, threshold: int): (ids: set<TweetId>)
    ensures forall t :: 0 <= t < |searches| && searches[t].Results? ==> AboveIds(searches[t].items, threshold) <= ids
    ensures forall id :: id in ids ==> exists t :: 0 <= t < |searches| && searches[t].Results? && id in AboveIds(searches[t].items, threshold)
    decreases |searches|
  {
    if searches == [] then {}
    else
      var rest := AboveAll(searches[1..], threshold);
      assert forall t :: 1 <= t < |searches| ==> searches[t] == searches[1..][t - 1];
      (if searches[0].Results? then AboveIds(searches[0].items, threshold) else {}) + rest
  }

  /** No two positions of `ids` hold the same id. */
  predicate Distinct(ids: seq<TweetId>) {
    forall i, j :: 0 <= i < j < |ids| ==> ids[i] != ids[j]
  }

  /** Every key of `h` is still in `h2` with the same value. */
  predicate Kept(h: History, h2: History) {
    forall k :: k in h ==> k in h2 && h2[k] == h[k]
  }

  /**
   * How a scan from `s` to `r` may have grown: old entries kept, ids already
   * engaged with never liked again, liked ids distinct and appended
   * after the old ones, every new key a liked id with a `like_retweet`
   * entry, and a stopped scan stays stopped.
   */
  predicate Grows(s: Scan, r: Scan) {
    && Kept(s.history, r.history)
    && |s.liked| <= |r.liked|
    && r.liked[..|s.liked|] == s.liked
    && (forall i :: |s.liked| <= i < |r.liked| ==> Searched(r.liked[i]) !in s.history)
    && (Distinct(s.liked) ==> Distinct(r.liked))
    && (forall k :: k in r.history && k !in s.history ==> k.Searched? && k.id in r.liked[|s.liked|..] && r.history[k].kind == LikeRetweet)
    && (s.stopped ==> r == s)
  }

  /** The scan's own invariant: every liked id is one it has recorded or the last one, on which it stopped. */
  predicate Coherent(s: Scan) {
    forall i :: 0 <= i < |s.liked| ==> Searched(s.liked[i]) in s.history || (i == |s.liked| - 1 && s.stopped)
  }

  lemma KeptKeys(h: History, h2: History, k: Key)
    requires Kept(h, h2)
    ensures k in h ==> k in h2
  {
  }

  lemma GrowsRefl(s: Scan)
    ensures Grows(s, s)
  {
    assert s.liked[..|s.liked|] == s.liked;
  }

  lemma GrowsTrans(a: Scan, b: Scan, c: Scan)
    requires Grows(a, b) && Grows(b, c)
    requires Coherent(b)
    ensures Grows(a, c)
  {
    assert c.liked[..|b.liked|][..|a.liked|] == c.liked[..|a.liked|];
    forall k | k in c.history && k !in a.history
      ensures k.Searched? && k.id in c.liked[|a.liked|..] && c.history[k].kind == LikeRetweet
    {
      if k in b.history {
        var i :| |a.liked| <= i < |b.liked| && b.liked[i] == k.id;
        assert c.liked[i] == k.id;
      } else {
        var i :| |b.liked| <= i < |c.liked| && c.liked[i] == k.id;
      }
    }
    forall i | |a.liked| <= i < |c.liked|
      ensures Searched(c.liked[i]) !in a.history
    {
      if i < |b.liked| {
        assert c.liked[i] == b.liked[i];
      } else {
        assert Searched(c.liked[i]) !in b.history;
        KeptKeys(a.history, b.history, Searched(c.liked[i]));
      }
    }
    if Distinct(a.liked) {
      assert Distinct(b.liked);
      forall i, j | 0 <= i < j < |c.liked|
        ensures c.liked[i] != c.liked[j]
      {
        if j >= |b.liked| && i < |b.liked| {
          assert c.liked[i] == b.liked[i];
          assert Searched(b.liked[i]) in b.history || (i == |b.liked| - 1 && b.stopped);
        }
      }
    }
  }

  lemma VisitGrows(s: Scan, c: Candidate, threshold: int, count: int)
    requires !s.stopped && Coherent(s)
    ensures Grows(s, Visit(s, c, threshold, count)) && Coherent(Visit(s, c, threshold, count))
  {
    var r := Visit(s, c, threshold, count);
    if Qualifies(s.history, c, threshold) {
      assert r.liked[..|s.liked|] == s.liked;
      if Distinct(s.liked) {
        forall i, j | 0 <= i < j < |r.liked|
          ensures r.liked[i] != r.liked[j]
        {
          if j == |s.liked| {
            assert Searched(s.liked[i]) in s.history;
          }
        }
      }
    } else {
      GrowsRefl(s);
    }
  }

  lemma {:induction false} ScanItemsGrows(s: Scan, items: seq<Candidate>, threshold: int, count: int)
    requires Coherent(s)
    ensures Grows(s, ScanItems(s, items, threshold, count)) && Coherent(ScanItems(s, items, threshold, count))
    decreases |items|
  {
    if s.stopped || items == [] {
      GrowsRefl(s);
    } else {
      var v := Visit(s, items[0], threshold, count);
      VisitGrows(s, items[0], threshold, count);
      ScanItemsGrows(v, items[1..], threshold, count);
      GrowsTrans(s, v, ScanItems(v, items[1..], threshold, count));
    }
  }

  lemma {:induction false} ScanTopicsGrows(s: Scan, searches: seq<SearchOutcome>, threshold: int, count: int)
    requires Coherent(s)
    ensures Grows(s, ScanTopics(s, searches, threshold, count)) && Coherent(ScanTopics(s, searches, threshold, count))
    decreases |searches|
  {
    if s.stopped || searches == [] {
      GrowsRefl(s);
    } else {
      match searches[0]
      case SearchRaised =>
        assert Scan(s.history, s.liked, true).liked[..|s.liked|] == s.liked;
      case Results(items) =>
        var v := ScanItems(s, items, threshold, count);
        ScanItemsGrows(s, items, threshold, count);
        ScanTopicsGrows(v, searches[1..], threshold, count);
        GrowsTrans(s, v, ScanTopics(v, searches[1..], threshold, count));
    }
  }

  /**
   * A scan keeps every entry it started with unchanged, never likes an item
   * already in the history, likes each item at most once, adds only
   * `like_retweet` entries and only for items it liked, and every item it
   * liked has its id among the search results with a like count strictly
   * above the threshold.
   */
  lemma EngageGrows(h: History, searches: seq<SearchOutcome>, threshold: int, count: int)
    ensures var r := Engage(h, searches, threshold, count);
      && Kept(h, r.history)
      && (forall i :: 0 <= i < |r.liked| ==> Searched(r.liked[i]) !in h)
      && Distinct(r.liked)
      && (forall k :: k in r.history && k !in h ==> k.Searched? && k.id in r.liked && r.history[k].kind == LikeRetweet)
      && (forall i :: 0 <= i < |r.liked| ==> r.liked[i] in AboveAll(searches, threshold))
  {
    var s := Scan(h, [], false);
    ScanTopicsGrows(s, searches, threshold, count);
    ScanTopicsAbove(s, searches, threshold, count);
    assert ScanTopics(s, searches, threshold, count).liked[|s.liked|..] == ScanTopics(s, searches, threshold, count).liked;
  }

  /** Every id a scan newly liked is above the threshold in the searches it visited. */
  lemma {:induction false} ScanTopicsAbove(s: Scan, searches: seq<SearchOutcome>, threshold: int, count: int)
    ensures var r := ScanTopics(s, searches, threshold, count);
      |s.liked| <= |r.liked| &&
      forall i :: |s.liked| <= i < |r.liked| ==> r.liked[i] in AboveAll(searches, threshold)
    decreases |searches|
  {
    if s.stopped || searches == [] {
    } else {
      match searches[0]
      case SearchRaised =>
      case Results(items) =>
        var v := ScanItems(s, items, threshold, count);
        ScanItemsAbove(s, items, threshold, count);
        ScanTopicsAbove(v, searches[1..], threshold, count);
        ScanTopicsPrefix(v, searches[1..], threshold, count);
        var r := ScanTopics(v, searches[1..], threshold, count);
        forall i | |s.liked| <= i < |r.liked|
          ensures r.liked[i] in AboveAll(searches, threshold)
        {
          if i < |v.liked| {
            assert r.liked[i] == v.liked[i];
          }
        }
    }
  }

  lemma {:induction false} ScanItemsAbove(s: Scan, items: seq<Candidate>, threshold: int, count: int)
    ensures var r := ScanItems(s, items, threshold, count);
      |s.liked| <= |r.liked| &&
      forall i :: |s.liked| <= i < |r.liked| ==> r.liked[i] in AboveIds(items, threshold)
    decreases |items|
  {
    if s.stopped || items == [] {
    } else {
      var v := Visit(s, items[0], threshold, count);
      ScanItemsAbove(v, items[1..], threshold, count);
      ScanItemsPrefix(v, items[1..], threshold, count);
      var r := ScanItems(v, items[1..], threshold, count);
      forall i | |s.liked| <= i < |r.liked|
        ensures r.liked[i] in AboveIds(items, threshold)
      {
        if i < |v.liked| {
          assert r.liked[i] == v.liked[i] == items[0].id;
        }
      }
    }
  }

  /** A scan only appends to the liked ids. */
  lemma {:induction false} ScanItemsPrefix(s: Scan, items: seq<Candidate>, threshold: int, count: int)
    ensures var r := ScanItems(s, items, threshold, count);
      |s.liked| <= |r.liked| && r.liked[..|s.liked|] == s.liked
    decreases |items|
  {
    if s.stopped || items == [] {
      assert s.liked[..|s.liked|] == s.liked;
    } else {
      var v := Visit(s, items[0], threshold, count);
      assert v.liked[..|s.liked|] == s.liked;
      ScanItemsPrefix(v, items[1..], threshold, count);
      var r := ScanItems(v, items[1..], threshold, count);
      assert r.liked[..|s.liked|] == r.liked[..|v.liked|][..|s.liked|];
    }
  }

  lemma {:induction false} ScanTopicsPrefix(s: Scan, searches: seq<SearchOutcome>, threshold: int, count: int)
    ensures var r := ScanTopics(s, searches, threshold, count);
      |s.liked| <= |r.liked| && r.liked[..|s.liked|] == s.liked
    decreases |searches|
  {
    if s.stopped || searches == [] {
      assert s.liked[..|s.liked|] == s.liked;
    } else {
      match searches[0]
      case SearchRaised =>
        assert s.liked[..|s.liked|] == s.liked;
      case Results(items) =>
        var v := ScanItems(s, items, threshold, count);
        ScanItemsPrefix(s, items, threshold, count);
        ScanTopicsPrefix(v, searches[1..], threshold, count);
        var r := ScanTopics(v, searches[1..], threshold, count);
        assert r.liked[..|s.liked|] == r.liked[..|v.liked|][..|s.liked|];
    }
  }

  /** No search raised and every like and retweet returned. */
  predicate NoFailures(searches: seq<SearchOutcome>) {
    forall t :: 0 <= t < |searches| ==> searches[t].Results? && AllActed(searches[t].items)
  }

  predicate AllActed(items: seq<Candidate>) {
    forall j :: 0 <= j < |items| ==> items[j].action.Acted?
  }

  lemma {:induction false} ScanItemsComplete(s: Scan, items: seq<Candidate>, threshold: int, count: int)
    requires !s.stopped && count > 0 && AllActed(items)
    ensures var r := ScanItems(s, items, threshold, count);
      && !r.stopped
      && forall k :: k in r.history <==> k in s.history || (k.Searched? && k.id in AboveIds(items, threshold))
    decreases |items|
  {
    if items != [] {
      var v := Visit(s, items[0], threshold, count);
      assert AllActed(items[1..]) by {
        forall j | 0 <= j < |items[1..]| ensures items[1..][j].action.Acted? {
          assert items[1..][j] == items[j + 1];
        }
      }
      ScanItemsComplete(v, items[1..], threshold, count);
    }
  }

  lemma {:induction false} ScanTopicsComplete(s: Scan, searches: seq<SearchOutcome>, threshold: int, count: int)
    requires !s.stopped && count > 0 && NoFailures(searches)
    ensures var r := ScanTopics(s, searches, threshold, count);
      && !r.stopped
      && forall k :: k in r.history <==> k in s.history || (k.Searched? && k.id in AboveAll(searches, threshold))
    decreases |searches|
  {
    if searches != [] {
      var items := searches[0].items;
      ScanItemsComplete(s, items, threshold, count);
      assert NoFailures(searches[1..]) by {
        forall t | 0 <= t < |searches[1..]| ensures searches[1..][t].Results? && AllActed(searches[1..][t].items) {
          assert searches[1..][t] == searches[t + 1];
        }
      }
      ScanTopicsComplete(ScanItems(s, items, threshold, count), searches[1..], threshold, count);
    }
  }

  /**
   * When nothing fails and the pause never raises, a scan ends with exactly
   * the old keys plus the ids that some search returned with a like count
   * strictly above the threshold, and keeps the old entries unchanged.
   */
  lemma EngageComplete(h: History, searches: seq<SearchOutcome>, threshold: int, count: int)
    requires count > 0 && NoFailures(searches)
    ensures var r := Engage(h, searches, threshold, count);
      && (forall k :: k in r.history <==> k in h || (k.Searched? && k.id in AboveAll(searches, threshold)))
      && Kept(h, r.history)
  {
    ScanTopicsComplete(Scan(h, [], false), searches, threshold, count);
    EngageGrows(h, searches, threshold, count);
  }

  lemma {:induction false} ScanItemsSettled(s: Scan, items: seq<Candidate>, threshold: int, count: int)
    requires forall id :: id in AboveIds(items, threshold) ==> Searched(id) in s.history
    ensures ScanItems(s, items, threshold, count) == s
    decreases |items|
  {
    if !s.stopped && items != [] {
      assert !Qualifies(s.history, items[0], threshold);
      ScanItemsSettled(s, items[1..], threshold, count);
    }
  }

  lemma {:induction false} ScanTopicsSettled(s: Scan, searches: seq<SearchOutcome>, threshold: int, count: int)
    requires forall id :: id in AboveAll(searches, threshold) ==> Searched(id) in s.history
    requires NoFailures(searches)
    ensures ScanTopics(s, searches, threshold, count) == s
    decreases |searches|
  {
    if !s.stopped && searches != [] {
      ScanItemsSettled(s, searches[0].items, threshold, count);
      assert NoFailures(searches[1..]) by {
        forall t | 0 <= t < |searches[1..]| ensures searches[1..][t].Results? && AllActed(searches[1..][t].items) {
          assert searches[1..][t] == searches[t + 1];
        }
      }
      ScanTopicsSettled(s, searches[1..], threshold, count);
    }
  }

  /**
   * Running the scan again over the same search results, on the history
   * the first run left, likes nothing and records nothing: every
   * qualifying id is already a key.
   */
  lemma RescanIsQuiet(h: History, searches: seq<SearchOutcome>, threshold: int, count: int)
    requires count > 0 && NoFailures(searches)
    ensures var r := Engage(h, searches, threshold, count);
      Engage(r.history, searches, threshold, count) == Scan(r.history, [], false)
  {
    EngageComplete(h, searches, threshold, count);
    ScanTopicsSettled(Scan(Engage(h, searches, threshold, count).history, [], false), searches, threshold, count);
  }

  lemma {:induction false} ScanItemsZeroCount(s: Scan, items: seq<Candidate>, threshold: int, count: int)
    requires count <= 0
    ensures var r := ScanItems(s, items, threshold, count);
      r == s || (!s.stopped && r.stopped && |r.liked| == |s.liked| + 1)
    decreases |items|
  {
    if !s.stopped && items != [] {
      var v := Visit(s, items[0], threshold, count);
      if v == s {
        ScanItemsZeroCount(s, items[1..], threshold, count);
      }
    }
  }

  lemma {:induction false} ScanTopicsZeroCount(s: Scan, searches: seq<SearchOutcome>, threshold: int, count: int)
    requires count <= 0
    ensures var r := ScanTopics(s, searches, threshold, count);
      r.history == s.history || (!s.stopped && r.stopped && |r.liked| == |s.liked| + 1)
    ensures |ScanTopics(s, searches, threshold, count).liked| <= |s.liked| + 1
    decreases |searches|
  {
    if !s.stopped && searches != [] {
      match searches[0]
      case SearchRaised =>
      case Results(items) =>
        var v := ScanItems(s, items, threshold, count);
        ScanItemsZeroCount(s, items, threshold, count);
        if v == s {
          ScanTopicsZeroCount(s, searches[1..], threshold, count);
        }
    }
  }

  /**
   * With `engagement_count <= 0` the pause after the first recorded entry
   * raises, so a scan likes at most one item and adds at most one entry.
   */
  lemma EngageZeroCount(h: History, searches: seq<SearchOutcome>, threshold: int, count: int)
    requires count <= 0
    ensures var r := Engage(h, searches, threshold, count);
      && |r.liked| <= 1
      && (forall k :: k in r.history && k !in h ==> k.Searched? && r.liked == [k.id])
      && (r.history != h ==> r.stopped)
  {
    var r := Engage(h, searches, threshold, count);
    ScanTopicsZeroCount(Scan(h, [], false), searches, threshold, count);
    assert forall k :: k in r.history && k !in h ==> k.Searched? && k.id in r.liked by {
      EngageGrows(h, searches, threshold, count);
    }
    forall k | k in r.history && k !in h
      ensures k.Searched? && r.liked == [k.id]
    {
      assert k.id in r.liked && |r.liked| == 1;
      assert r.liked[0] == k.id;
    }
  }

  // ---------------------------------------------------------------------
  // Order: topic by topic, each search's results in list order
  // ---------------------------------------------------------------------

  /** The results the scan can reach: those of each topic in order, up to the first search that raised. */
  function Reached(searches: seq<SearchOutcome>): seq<Candidate>
    decreases |searches|
  {
    if searches == [] then []
    else
      match searches[0]
      case SearchRaised => []
      case Results(items) => items + Reached(searches[1..])
  }

  /** Some search raised. */
  predicate SomeSearchRaised(searches: seq<SearchOutcome>)
    decreases |searches|
  {
    searches != [] && (searches[0].SearchRaised? || SomeSearchRaised(searches[1..]))
  }

  /** Visiting two lists of results one after the other is visiting their concatenation. */
  lemma {:induction false} ScanItemsAppend(s: Scan, xs: seq<Candidate>, ys: seq<Candidate>, threshold: int, count: int)
    ensures ScanItems(s, xs + ys, threshold, count) == ScanItems(ScanItems(s, xs, threshold, count), ys, threshold, count)
    decreases |xs|
  {
    if xs == [] {
      assert xs + ys == ys;
    } else if !s.stopped {
      assert (xs + ys)[0] == xs[0] && (xs + ys)[1..] == xs[1..] + ys;
      ScanItemsAppend(Visit(s, xs[0], threshold, count), xs[1..], ys, threshold, count);
    }
  }

  /**
   * The scan over the topics is one scan over the reached results, in
   * topic order and list order within a topic, that also stops when a
   * search raised.
   */
  lemma {:induction false} ScanTopicsInOrder(s: Scan, searches: seq<SearchOutcome>, threshold: int, count: int)
    ensures var r := ScanItems(s, Reached(searches), threshold, count);
      ScanTopics(s, searches, threshold, count) == Scan(r.history, r.liked, r.stopped || SomeSearchRaised(searches))
    decreases |searches|
  {
    if s.stopped || searches == [] {
    } else {
      match searches[0]
      case SearchRaised =>
      case Results(items) =>
        var v := ScanItems(s, items, threshold, count);
        ScanTopicsInOrder(v, searches[1..], threshold, count);
        ScanItemsAppend(s, items, Reached(searches[1..]), threshold, count);
    }
  }

  /** The scan of `engage_with_community` visits the reached results in order. */
  lemma EngageInOrder(h: History, searches: seq<SearchOutcome>, threshold: int, count: int)
    ensures var r := ScanItems(Scan(h, [], false), Reached(searches), threshold, count);
      Engage(h, searches, threshold, count) == Scan(r.history, r.liked, r.stopped || SomeSearchRaised(searches))
  {
    ScanTopicsInOrder(Scan(h, [], false), searches, threshold, count);
  }

  /** Results of which none qualifies change nothing. */
  lemma {:induction false} ScanItemsNoneQualify(s: Scan, items: seq<Candidate>, threshold: int, count: int)
    requires forall i :: 0 <= i < |items| ==> !Qualifies(s.history, items[i], threshold)
    ensures ScanItems(s, items, threshold, count) == s
    decreases |items|
  {
    if !s.stopped && items != [] {
      assert !Qualifies(s.history, items[0], threshold);
      assert forall i :: 0 <= i < |items[1..]| ==> items[1..][i] == items[i + 1];
      ScanItemsNoneQualify(s, items[1..], threshold, count);
    }
  }

  /**
   * With `engagement_count <= 0`, visiting results comes down to visiting
   * the first one that qualifies: whatever happens to it, the scan stops there.
   */
  lemma {:induction false} ScanItemsFirstQualifying(s: Scan, items: seq<Candidate>, j: nat, threshold: int, count: int)
    requires count <= 0 && !s.stopped
    requires j < |items| && Qualifies(s.history, items[j], threshold)
    requires forall i :: 0 <= i < j ==> !Qualifies(s.history, items[i], threshold)
    ensures ScanItems(s, items, threshold, count) == Visit(s, items[j], threshold, count)
    decreases j
  {
    if j > 0 {
      assert !Qualifies(s.history, items[0], threshold);
      assert forall i :: 0 <= i < |items[1..]| ==> items[1..][i] == items[i + 1];
      ScanItemsFirstQualifying(s, items[1..], j - 1, threshold, count);
    }
  }

  /**
   * With `engagement_count <= 0`, the one item liked is the first reached
   * result that qualifies. It is recorded exactly when both calls
   * returned, and the scan ends there either way.
   */
  lemma EngageZeroCountFirst(h: History, searches: seq<SearchOutcome>, j: nat, threshold: int, count: int)
    requires count <= 0
    requires j < |Reached(searches)| && Qualifies(h, Reached(searches)[j], threshold)
    requires forall i :: 0 <= i < j ==> !Qualifies(h, Reached(searches)[i], threshold)
    ensures var c, r := Reached(searches)[j], Engage(h, searches, threshold, count);
      && r.liked == [c.id]
      && r.stopped
      && (c.action.Acted? ==> r.history == h[Searched(c.id) := EngagementRecord(LikeRetweet, c.clock)])
      && (!c.action.Acted? ==> r.history == h)
  {
    var s := Scan(h, [], false);
    EngageInOrder(h, searches, threshold, count);
    ScanItemsFirstQualifying(s, Reached(searches), j, threshold, count);
    VisitQualifying(s, Reached(searches)[j], threshold, count);
  }

  /** When no reached result qualifies, the scan likes and records nothing. */
  lemma EngageNoneQualify(h: History, searches: seq<SearchOutcome>, threshold: int, count: int)
    requires forall i :: 0 <= i < |Reached(searches)| ==> !Qualifies(h, Reached(searches)[i], threshold)
    ensures Engage(h, searches, threshold, count) == Scan(h, [], SomeSearchRaised(searches))
  {
    EngageInOrder(h, searches, threshold, count);
    ScanItemsNoneQualify(Scan(h, [], false), Reached(searches), threshold, count);
  }

  // ---------------------------------------------------------------------
  // Loaded entries never match a searched id
  // ---------------------------------------------------------------------

  /** Two histories with the same searched ids and the same entries under them. */
  ghost predicate SameSearched(h1: History, h2: History) {
    forall id :: (Searched(id) in h1 <==> Searched(id) in h2) && (Searched(id) in h1 ==> h1[Searched(id)] == h2[Searched(id)])
  }

  /** Two scan states that differ at most in their loaded entries. */
  ghost predicate Alike(s1: Scan, s2: Scan) {
    SameSearched(s1.history, s2.history) && s1.liked == s2.liked && s1.stopped == s2.stopped
  }

  lemma VisitAlike(s1: Scan, s2: Scan, c: Candidate, threshold: int, count: int)
    requires Alike(s1, s2)
    ensures Alike(Visit(s1, c, threshold, count), Visit(s2, c, threshold, count))
  {
    assert Qualifies(s1.history, c, threshold) == Qualifies(s2.history, c, threshold);
  }

  lemma {:induction false} ScanItemsAlike(s1: Scan, s2: Scan, items: seq<Candidate>, threshold: int, count: int)
    requires Alike(s1, s2)
    ensures Alike(ScanItems(s1, items, threshold, count), ScanItems(s2, items, threshold, count))
    decreases |items|
  {
    if !s1.stopped && items != [] {
      VisitAlike(s1, s2, items[0], threshold, count);
      ScanItemsAlike(Visit(s1, items[0], threshold, count), Visit(s2, items[0], threshold, count), items[1..], threshold, count);
    }
  }

  lemma {:induction false} ScanTopicsAlike(s1: Scan, s2: Scan, searches: seq<SearchOutcome>, threshold: int, count: int)
    requires Alike(s1, s2)
    ensures Alike(ScanTopics(s1, searches, threshold, count), ScanTopics(s2, searches, threshold, count))
    decreases |searches|
  {
    if !s1.stopped && searches != [] {
      match searches[0]
      case SearchRaised =>
      case Results(items) =>
        ScanItemsAlike(s1, s2, items, threshold, count);
        ScanTopicsAlike(ScanItems(s1, items, threshold, count), ScanItems(s2, items, threshold, count), searches[1..], threshold, count);
    }
  }

  /**
   * A scan that starts from a history loaded from the state file likes
   * exactly the items a scan from an empty history likes, stops at the
   * same point, and records the same entries. The loaded entries stay
   * as they are.
   */
  lemma LoadedEntriesNeverMatch(file: map<string, EngagementRecord>, searches: seq<SearchOutcome>, threshold: int, count: int)
    ensures var r1, r0 := Engage(LoadHistory(file), searches, threshold, count), Engage(map[], searches, threshold, count);
      && r1.liked == r0.liked
      && r1.stopped == r0.stopped
      && SameSearched(r1.history, r0.history)
      && Kept(LoadHistory(file), r1.history)
  {
    ScanTopicsAlike(Scan(LoadHistory(file), [], false), Scan(map[], [], false), searches, threshold, count);
    EngageGrows(LoadHistory(file), searches, threshold, count);
  }

  /**
   * A tweet recorded as 7 before a restart is read back under the key "7",
   * so a search that returns it again with 150 likes has it liked,
   * retweeted and recorded a second time.
   */
  lemma ReloadedIdIsEngagedAgain(e: EngagementRecord)
    ensures var h := LoadHistory(map["7" := e]);
      Engage(h, [Results([Candidate(7, 150, Acted, "t")])], 100, 2)
        == Scan(h[Searched(7) := EngagementRecord(LikeRetweet, "t")], [7], false)
  {
    var h := LoadHistory(map["7" := e]);
    assert Searched(7) !in h;
    var s1 := Scan(h[Searched(7) := EngagementRecord(LikeRetweet, "t")], [7], false);
    assert ScanItems(Scan(h, [], false), [Candidate(7, 150, Acted, "t")], 100, 2) == s1;
  }

  /**
   * With the threshold at 100, results with 50, 150 and exactly 100 likes:
   * only the one with 150 is liked and recorded, since the comparison is strict.
   */
  lemma ThresholdIsStrict()
    ensures Engage(map[], [Results([Candidate(1, 50, Acted, "t1"), Candidate(2, 150, Acted, "t2"),
                                    Candidate(3, 100, Acted, "t3")])], 100, 2)
         == Scan(map[Searched(2) := EngagementRecord(LikeRetweet, "t2")], [2], false)
  {
    var s0 := Scan(map[], [], false);
    var s1 := Scan(map[Searched(2) := EngagementRecord(LikeRetweet, "t2")], [2], false);
    var items := [Candidate(1, 50, Acted, "t1"), Candidate(2, 150, Acted, "t2"), Candidate(3, 100, Acted, "t3")];
    assert ScanItems(s0, items, 100, 2) == ScanItems(s0, items[1..], 100, 2);
    assert ScanItems(s0, items[1..], 100, 2) == ScanItems(s1, items[2..], 100, 2);
    assert ScanItems(s1, items[2..], 100, 2) == s1;
  }

  /**
   * With `engagement_count` 0, two qualifying results in two topics: the
   * first is recorded, the pause raises, and the second is never reached.
   */
  lemma ZeroCountStopsAfterFirst()
    ensures Engage(map[], [Results([Candidate(1, 150, Acted, "t1")]), Results([Candidate(2, 150, Acted, "t2")])], 100, 0)
         == Scan(map[Searched(1) := EngagementRecord(LikeRetweet, "t1")], [1], true)
  {
    var s1 := Scan(map[Searched(1) := EngagementRecord(LikeRetweet, "t1")], [1], true);
    assert ScanItems(Scan(map[], [], false), [Candidate(1, 150, Acted, "t1")], 100, 0) == s1;
  }

  /**
   * A retweet that raises after the like leaves that item unrecorded, keeps
   * the entry of the item before it, and ends the scan before the next topic.
   */
  lemma FailedRetweetKeepsEarlierEntries()
    ensures Engage(map[], [Results([Candidate(1, 150, Acted, "t1"), Candidate(2, 150, RetweetRaised, "t2")]),
                           Results([Candidate(3, 150, Acted, "t3")])], 100, 2)
         == Scan(map[Searched(1) := EngagementRecord(LikeRetweet, "t1")], [1, 2], true)
  {
    var items := [Candidate(1, 150, Acted, "t1"), Candidate(2, 150, RetweetRaised, "t2")];
    var s1 := Scan(map[Searched(1) := EngagementRecord(LikeRetweet, "t1")], [1], false);
    var s2 := Scan(map[Searched(1) := EngagementRecord(LikeRetweet, "t1")], [1, 2], true);
    assert ScanItems(Scan(map[], [], false), items, 100, 2) == ScanItems(s1, items[1..], 100, 2);
    assert ScanItems(s1, items[1..], 100, 2) == s2;
  }
}
