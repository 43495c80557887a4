/**
 * search_tweets (tweet_search.py): the paging loop. Each request is answered by
 * the next element of a finite sequence of responses that stands for the
 * search API; the loop counts pages, counts consecutive empty or failed
 * answers, and moves the max_id bound below the smallest id collected so far.
 */
module Search {
  import opened Wrappers
  import opened Tweets
  import Query
  import Redirect
  import Seqs

  /** A status as the API returns it, reduced to the fields search_tweets reads. */
  datatype Status = Status(id: int, createdAt: string, fullText: string, userName: string)

  /** One answer: the request raised (network, decoding, missing key), or a list of statuses. */
  datatype Response = Failed | Statuses(items: seq<Status>)

  /** The varying part of a request; its URL is Query.SearchUrl of these three. */
  datatype Request = Request(keywords: string, maxId: Option<int>, sinceId: Option<int>)

  /** Why the loop ended; SourceExhausted is the model's own bound on the number of requests. */
  datatype Stop = TooManyRetries | PageLimit | SourceExhausted

  /** After this many consecutive empty or failed answers the loop gives up. */
  const MaxRetries: nat := 3

  predicate IsPage(r: Response)
  {
    r.Statuses? && r.items != []
  }

  /** The item kept for one status, with its text's short links resolved. */
  function ToTweet(s: Status, resolve: Redirect.Resolver): Tweet
  {
    Tweet(s.id, s.createdAt, Redirect.Resolve(s.fullText, resolve), s.userName)
  }

  /** The items one page contributes, in the order the API listed them. */
  function Converted(items: seq<Status>, resolve: Redirect.Resolver): (r: seq<Tweet>)
    ensures |r| == |items|
  {
    if items == [] then [] else Converted(items[..|items| - 1], resolve) + [ToTweet(items[|items| - 1], resolve)]
  }

  /** Status i of a page becomes item i, with its id, time and user kept and its text resolved. */
  lemma {:induction false} ConvertedAt(items: seq<Status>, resolve: Redirect.Resolver)
    ensures forall i :: 0 <= i < |items| ==> Converted(items, resolve)[i] == ToTweet(items[i], resolve)
  {
    if items != [] {
      ConvertedAt(items[..|items| - 1], resolve);
    }
  }

  /** The items accumulated after the given answers: every page's items, in arrival order. */
  function Collected(rs: seq<Response>, resolve: Redirect.Resolver): seq<Tweet>
  {
    if rs == [] then []
    else
      var last := rs[|rs| - 1];
      Collected(rs[..|rs| - 1], resolve) + (if IsPage(last) then Converted(last.items, resolve) else [])
  }

  /** The number of non-empty pages among the answers. */
  function Pages(rs: seq<Response>): nat
  {
    if rs == [] then 0 else Pages(rs[..|rs| - 1]) + (if IsPage(rs[|rs| - 1]) then 1 else 0)
  }

  /** The retry counter: how many answers at the end are empty or failed. */
  function Misses(rs: seq<Response>): nat
  {
    if rs == [] || IsPage(rs[|rs| - 1]) then 0 else Misses(rs[..|rs| - 1]) + 1
  }

  /** min(t['id'] for t in ts) */
  function MinId(ts: seq<Tweet>): int
    requires ts != []
  {
    if |ts| == 1 then ts[0].id
    else
      var rest := MinId(ts[1..]);
      if ts[0].id <= rest then ts[0].id else rest
  }

  /** MinId is the smallest id, and some item has it. */
  lemma {:induction false} MinIdIsMin(ts: seq<Tweet>)
    requires ts != []
    ensures forall t :: t in ts ==> MinId(ts) <= t.id
    ensures exists t :: t in ts && t.id == MinId(ts)
  {
    assert ts[0] in ts;
    if |ts| > 1 {
      MinIdIsMin(ts[1..]);
      assert forall t :: t in ts ==> t == ts[0] || t in ts[1..];
      var w :| w in ts[1..] && w.id == MinId(ts[1..]);
      assert w in ts;
    }
  }

  /** The max_id of the next request: unset until a page arrived, then one below the smallest id. */
  function MaxIdAfter(rs: seq<Response>, resolve: Redirect.Resolver): Option<int>
  {
    var ts := Collected(rs, resolve);
    if ts == [] then None else Some(MinId(ts) - 1)
  }

  /** The loop breaks right after a page that brings the page count to max_pages. */
  predicate PageLimitHit(rs: seq<Response>, maxPages: int)
  {
    rs != [] && IsPage(rs[|rs| - 1]) && maxPages != 0 && Pages(rs) >= maxPages
  }

  /** The loop has stopped once it has seen these answers. */
  predicate Done(rs: seq<Response>, maxPages: int)
  {
    Misses(rs) >= MaxRetries || PageLimitHit(rs, maxPages)
  }

  /** What one more answer does to the counters, the collected items and the max_id of the next request. */
  lemma Snoc(rs: seq<Response>, r: Response, resolve: Redirect.Resolver)
    ensures Pages(rs + [r]) == Pages(rs) + (if IsPage(r) then 1 else 0)
    ensures Misses(rs + [r]) == (if IsPage(r) then 0 else Misses(rs) + 1)
    ensures Collected(rs + [r], resolve) == Collected(rs, resolve) + (if IsPage(r) then Converted(r.items, resolve) else [])
    ensures !IsPage(r) ==> MaxIdAfter(rs + [r], resolve) == MaxIdAfter(rs, resolve)
    ensures IsPage(r) ==> Collected(rs + [r], resolve) != []
    ensures IsPage(r) ==> MaxIdAfter(rs + [r], resolve) == Some(MinId(Collected(rs + [r], resolve)) - 1)
  {
    assert (rs + [r])[..|rs|] == rs;
    var before := Collected(rs, resolve);
    if IsPage(r) {
      assert |Collected(rs + [r], resolve)| == |before| + |r.items| > 0;
    } else {
      assert before + [] == before;
    }
  }

  /** The request issued after the given answers. */
  function NextRequest(keywords: string, since: Option<int>, rs: seq<Response>, resolve: Redirect.Resolver): Request
  {
    Request(keywords, MaxIdAfter(rs, resolve), since)
  }

  /** The first n requests, each built from the answers that came before it. */
  function Requests(keywords: string, since: Option<int>, source: seq<Response>, n: nat,
                    resolve: Redirect.Resolver): seq<Request>
    requires n <= |source|
  {
    if n == 0 then []
    else Requests(keywords, since, source, n - 1, resolve) + [NextRequest(keywords, since, source[..n - 1], resolve)]
  }

  lemma {:induction false} RequestsAt(keywords: string, since: Option<int>, source: seq<Response>, n: nat,
                                      resolve: Redirect.Resolver)
    requires n <= |source|
    ensures |Requests(keywords, since, source, n, resolve)| == n
    ensures forall k :: 0 <= k < n ==>
      Requests(keywords, since, source, n, resolve)[k] == NextRequest(keywords, since, source[..k], resolve)
  {
    if n > 0 {
      RequestsAt(keywords, since, source, n - 1, resolve);
      assert Requests(keywords, since, source, n, resolve) ==
        Requests(keywords, since, source, n - 1, resolve) + [NextRequest(keywords, since, source[..n - 1], resolve)];
    }
  }

  /** No prefix of the answers up to length n makes the loop stop. */
  predicate RunningThrough(source: seq<Response>, n: nat, maxPages: int)
    requires n <= |source|
  {
    !Done(source[..n], maxPages) && (n == 0 || RunningThrough(source, n - 1, maxPages))
  }

  lemma {:induction false} RunningAt(source: seq<Response>, n: nat, maxPages: int)
    requires n <= |source| && RunningThrough(source, n, maxPages)
    ensures forall k :: 0 <= k <= n ==> !Done(source[..k], maxPages)
  {
    if n > 0 {
      RunningAt(source, n - 1, maxPages);
    }
  }

  /** The inner loop of search_tweets: one item per status appended, each text resolved. */
  method AppendStatuses(tweets: seq<Tweet>, statuses: seq<Status>, resolve: Redirect.Resolver)
    returns (out: seq<Tweet>)
    ensures out == tweets + Converted(statuses, resolve)
  {
    out := tweets;
    var j := 0;
    while j < |statuses|
      invariant 0 <= j <= |statuses|
      invariant out == tweets + Converted(statuses[..j], resolve)
    {
      var text := Redirect.ResolveRedirects(statuses[j].fullText, resolve);
      out := out + [Tweet(statuses[j].id, statuses[j].createdAt, text, statuses[j].userName)];
      assert statuses[..j + 1][..j] == statuses[..j];
      j := j + 1;
    }
    assert statuses[..j] == statuses;
  }

  /**
   * The body of search_tweets' loop once an answer has arrived: the retry
   * counter, the page count, the collected items and the next max_id, and
   * whether the loop breaks. `seen` are the answers before this one.
   */
  method OnResponse(ghost seen: seq<Response>, response: Response, maxPages: int, resolve: Redirect.Resolver,
                    count: nat, retry: nat, tweets: seq<Tweet>, maxId: Option<int>)
    returns (count': nat, retry': nat, tweets': seq<Tweet>, maxId': Option<int>, brk: Option<Stop>)
    requires count == Pages(seen) && retry == Misses(seen) && tweets == Collected(seen, resolve)
    requires maxId == MaxIdAfter(seen, resolve)
    requires !Done(seen, maxPages) && (maxPages > 0 ==> count < maxPages)
    ensures var rs := seen + [response];
      && count' == Pages(rs) && retry' == Misses(rs) && tweets' == Collected(rs, resolve)
      && (brk.None? ==> maxId' == MaxIdAfter(rs, resolve) && !Done(rs, maxPages) && (maxPages > 0 ==> count' < maxPages))
      && (brk == Some(TooManyRetries) ==> Misses(rs) == MaxRetries)
      && (brk == Some(PageLimit) ==> PageLimitHit(rs, maxPages))
      && brk != Some(SourceExhausted)
  {
    Snoc(seen, response, resolve);
    count', retry', tweets', maxId', brk := count, retry, tweets, maxId, None;
    var statuses := if response.Failed? then [] else response.items;
    if statuses == [] {
      retry' := retry + 1;
      if retry' >= MaxRetries {
        brk := Some(TooManyRetries);
      }
      return;
    }
    retry' := 0;
    tweets' := AppendStatuses(tweets, statuses, resolve);
    count' := count + 1;
    if maxPages != 0 && count' >= maxPages {
      brk := Some(PageLimit);
      return;
    }
    maxId' := Some(MinId(tweets') - 1);
  }

  /**
   * search_tweets. `requests` are the requests issued, one per answer consumed:
   * request k is built from the answers before it (RequestsAt), and the loop
   * stops at the first prefix of the answers after which it is Done
   * (RunningAt, StopPointIsUnique), or when the answers run out.
   */
  method SearchTweets(since: Option<int>, keywords: string, maxPages: int,
                      source: seq<Response>, resolve: Redirect.Resolver)
    returns (tweets: seq<Tweet>, requests: seq<Request>, stop: Stop)
    ensures |requests| <= |source|
    ensures requests == Requests(keywords, since, source, |requests|, resolve)
    ensures |requests| > 0 ==> RunningThrough(source, |requests| - 1, maxPages)
    ensures stop == SourceExhausted ==> |requests| == |source| && !Done(source, maxPages)
    ensures stop == TooManyRetries ==> Misses(source[..|requests|]) == MaxRetries
    ensures stop == PageLimit ==> PageLimitHit(source[..|requests|], maxPages)
    ensures tweets == Collected(source[..|requests|], resolve)
    ensures maxPages > 0 ==> Pages(source[..|requests|]) <= maxPages
  {
    var count: nat := 0;
    var retry: nat := 0;
    tweets := [];
    var maxId: Option<int> := None;
    requests := [];
    stop := SourceExhausted;
    var i := 0;
    while i < |source|
      invariant i == |requests| <= |source|
      invariant count == Pages(source[..i]) && retry == Misses(source[..i])
      invariant tweets == Collected(source[..i], resolve)
      invariant maxId == MaxIdAfter(source[..i], resolve)
      invariant requests == Requests(keywords, since, source, i, resolve)
      invariant RunningThrough(source, i, maxPages)
      invariant maxPages > 0 ==> count < maxPages
    {
      var brk;
      requests, count, retry, tweets, maxId, brk :=
        Iterate(keywords, since, source, i, maxPages, resolve, requests, count, retry, tweets, maxId);
      i := i + 1;
      if brk.Some? {
        stop := brk.value;
        break;
      }
    }
    if stop == SourceExhausted {
      assert source[..i] == source;
    }
  }

  /** One pass of search_tweets' loop: the request due after the answers before i, then answer i's effect. */
  method Iterate(keywords: string, since: Option<int>, source: seq<Response>, i: nat, maxPages: int,
                 resolve: Redirect.Resolver, requests: seq<Request>, count: nat, retry: nat, tweets: seq<Tweet>,
                 maxId: Option<int>)
    returns (requests': seq<Request>, count': nat, retry': nat, tweets': seq<Tweet>, maxId': Option<int>,
             brk: Option<Stop>)
    requires i < |source| && requests == Requests(keywords, since, source, i, resolve)
    requires count == Pages(source[..i]) && retry == Misses(source[..i]) && tweets == Collected(source[..i], resolve)
    requires maxId == MaxIdAfter(source[..i], resolve)
    requires RunningThrough(source, i, maxPages) && (maxPages > 0 ==> count < maxPages)
    ensures requests' == Requests(keywords, since, source, i + 1, resolve)
    ensures var rs := source[..i + 1];
      && count' == Pages(rs) && retry' == Misses(rs) && tweets' == Collected(rs, resolve)
      && (maxPages > 0 ==> Pages(rs) <= maxPages)
      && (brk.None? ==> maxId' == MaxIdAfter(rs, resolve) && RunningThrough(source, i + 1, maxPages)
                        && (maxPages > 0 ==> count' < maxPages))
      && (brk == Some(TooManyRetries) ==> Misses(rs) == MaxRetries)
      && (brk == Some(PageLimit) ==> PageLimitHit(rs, maxPages))
      && brk != Some(SourceExhausted)
  {
    requests' := requests + [Request(keywords, maxId, since)];
    count', retry', tweets', maxId', brk := OnResponse(source[..i], source[i], maxPages, resolve, count, retry, tweets, maxId);
    LoopStep(keywords, since, source, i, maxPages, resolve);
  }

  /** How the loop's ghost summaries grow by one answer. */
  lemma LoopStep(keywords: string, since: Option<int>, source: seq<Response>, i: nat, maxPages: int,
                 resolve: Redirect.Resolver)
    requires i < |source|
    ensures source[..i + 1] == source[..i] + [source[i]]
    ensures Requests(keywords, since, source, i + 1, resolve) ==
      Requests(keywords, since, source, i, resolve) + [NextRequest(keywords, since, source[..i], resolve)]
    ensures RunningThrough(source, i + 1, maxPages) <==>
      RunningThrough(source, i, maxPages) && !Done(source[..i + 1], maxPages)
  {
  }

  // ---------------------------------------------------------------------
  // Properties of the paging loop
  // ---------------------------------------------------------------------

  /** An empty or failed answer leaves the bounds alone: the retry repeats the request. */
  lemma RetryRepeatsRequest(keywords: string, since: Option<int>, source: seq<Response>, k: nat,
                            resolve: Redirect.Resolver)
    requires k < |source| && !IsPage(source[k])
    ensures NextRequest(keywords, since, source[..k + 1], resolve) == NextRequest(keywords, since, source[..k], resolve)
  {
    assert source[..k + 1] == source[..k] + [source[k]];
    Snoc(source[..k], source[k], resolve);
  }

  /** The items collected are the pages' items, concatenated in arrival order. */
  lemma {:induction false} CollectedAppend(a: seq<Response>, b: seq<Response>, resolve: Redirect.Resolver)
    ensures Collected(a + b, resolve) == Collected(a, resolve) + Collected(b, resolve)
    decreases |b|
  {
    if b == [] {
      assert a + b == a;
    } else {
      var init, last := b[..|b| - 1], b[|b| - 1];
      assert b == init + [last];
      assert a + b == (a + init) + [last];
      CollectedAppend(a, init, resolve);
      Snoc(a + init, last, resolve);
      Snoc(init, last, resolve);
      Seqs.Regroup(Collected(a, resolve), Collected(init, resolve),
                   if IsPage(last) then Converted(last.items, resolve) else []);
    }
  }

  /**
   * The max_id bound lies strictly below every id collected, so while max_id is
   * non-zero no item is asked for twice (for 0 see ZeroMaxIdIsDropped).
   */
  lemma MaxIdBelowCollected(rs: seq<Response>, resolve: Redirect.Resolver)
    requires MaxIdAfter(rs, resolve).Some?
    ensures forall t :: t in Collected(rs, resolve) ==> MaxIdAfter(rs, resolve).value < t.id
  {
    MinIdIsMin(Collected(rs, resolve));
  }

  /**
   * The exception to the bound above: once the smallest id collected is 1,
   * max_id is 0, which request_url drops as falsy, so the next request is the
   * same URL as the first one and asks for the newest items again.
   */
  lemma ZeroMaxIdIsDropped(keywords: string, since: Option<int>, rs: seq<Response>, resolve: Redirect.Resolver,
                           quote: string -> string)
    requires Collected(rs, resolve) != [] && MinId(Collected(rs, resolve)) == 1
    ensures NextRequest(keywords, since, rs, resolve).maxId == Some(0)
    ensures Query.SearchUrl(keywords, NextRequest(keywords, since, rs, resolve).maxId, since, quote)
         == Query.SearchUrl(keywords, NextRequest(keywords, since, [], resolve).maxId, since, quote)
  {
    Query.SearchUrlShape(keywords, Some(0), since, quote);
    Query.SearchUrlShape(keywords, None, since, quote);
  }

  /** The minimum over a longer list is no larger. */
  lemma MinIdOfExtension(a: seq<Tweet>, b: seq<Tweet>)
    requires a != []
    ensures MinId(a + b) <= MinId(a)
  {
    MinIdIsMin(a);
    MinIdIsMin(a + b);
    var w :| w in a && w.id == MinId(a);
    assert w in a + b;
  }

  /** Once set, max_id never increases from one request to a later one. */
  lemma MaxIdNonIncreasing(rs: seq<Response>, j: nat, k: nat, resolve: Redirect.Resolver)
    requires j <= k <= |rs| && MaxIdAfter(rs[..j], resolve).Some?
    ensures MaxIdAfter(rs[..k], resolve).Some?
    ensures MaxIdAfter(rs[..k], resolve).value <= MaxIdAfter(rs[..j], resolve).value
  {
    assert rs[..k] == rs[..j] + rs[j..k];
    CollectedAppend(rs[..j], rs[j..k], resolve);
    MinIdOfExtension(Collected(rs[..j], resolve), Collected(rs[j..k], resolve));
  }

  /** The first request carries no max_id field. */
  lemma FirstRequestHasNoMaxId(keywords: string, since: Option<int>, resolve: Redirect.Resolver)
    ensures NextRequest(keywords, since, [], resolve).maxId.None?
    ensures "max_id" !in Query.Keys(Query.Kept(Query.SearchParams(keywords, NextRequest(keywords, since, [], resolve).maxId, since)))
  {
    Query.NoMaxIdField(keywords, since);
  }

  /**
   * Against a source that never returns a page the loop stops after exactly
   * three requests, having collected nothing.
   */
  lemma ThreeMissesStop(source: seq<Response>, maxPages: int, resolve: Redirect.Resolver)
    requires |source| >= 3 && forall r :: r in source ==> !IsPage(r)
    ensures forall k :: 0 <= k < 3 ==> !Done(source[..k], maxPages)
    ensures Done(source[..3], maxPages)
    ensures Collected(source[..3], resolve) == []
  {
    assert source[..1] == source[..0] + [source[0]];
    assert source[..2] == source[..1] + [source[1]];
    assert source[..3] == source[..2] + [source[2]];
    Snoc(source[..0], source[0], resolve);
    Snoc(source[..1], source[1], resolve);
    Snoc(source[..2], source[2], resolve);
  }

  /** How many requests the loop issues: the first point at which it is Done, or all the answers. */
  lemma StopPointIsUnique(source: seq<Response>, maxPages: int, n: nat, m: nat)
    requires n <= |source| && m <= |source|
    requires forall k :: 0 <= k < n ==> !Done(source[..k], maxPages)
    requires forall k :: 0 <= k < m ==> !Done(source[..k], maxPages)
    requires n == |source| || Done(source[..n], maxPages)
    requires m == |source| || Done(source[..m], maxPages)
    ensures n == m
  {
  }
}
