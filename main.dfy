/**
 * main (tweet_search.py) end to end: the configuration, the fetch, and the
 * writes, over the files as values and the network as a finite sequence of
 * answers plus a resolver.
 */
module TweetSearch {
  import opened Wrappers
  import Tweets
  import Config
  import Filter
  import Redirect
  import Search
  import Persist

  datatype Outcome =
    | Aborted(error: Config.ConfigError)
    | Finished(requests: seq<Search.Request>, stop: Search.Stop)

  /**
   * One run of main, with the keyword-change message corrected (see
   * Config.ConfigureIntended). A configuration error aborts before any request
   * and leaves the files untouched; otherwise the fetch starts at the merged
   * cursor and its items are planned and written as Persist describes.
   */
  method Run(args: Config.Args, files: Persist.Store, recreate: bool, maxPages: int,
             source: seq<Search.Response>, resolve: Redirect.Resolver,
             search: Filter.Matcher, stamp: string -> string)
    returns (files': Persist.Store, outcome: Outcome)
    ensures Config.ConfigureIntended(args, files.config).Failure? ==>
      files' == files && outcome == Aborted(Config.ConfigureIntended(args, files.config).error)
    ensures Config.ConfigureIntended(args, files.config).Success? ==>
      var cfg := Config.ConfigureIntended(args, files.config).value;
      && outcome.Finished?
      && |outcome.requests| <= |source|
      && outcome.requests == Search.Requests(cfg.keywords, cfg.latest, source, |outcome.requests|, resolve)
      && (|outcome.requests| > 0 ==> Search.RunningThrough(source, |outcome.requests| - 1, maxPages))
      && (|outcome.requests| == |source| || Search.Done(source[..|outcome.requests|], maxPages))
      && (forall k :: 0 <= k < |outcome.requests| ==>
            outcome.requests[k].keywords == cfg.keywords && outcome.requests[k].sinceId == cfg.latest)
      && files' == Persist.AfterFetch(files, cfg, Search.Collected(source[..|outcome.requests|], resolve),
                                      recreate, search, stamp)
  {
    var configured := Config.ConfigureIntended(args, files.config);
    if configured.Failure? {
      return files, Aborted(configured.error);
    }
    var cfg := configured.value;
    var fetched, requests, stop := Search.SearchTweets(cfg.latest, cfg.keywords, maxPages, source, resolve);
    Search.RequestsAt(cfg.keywords, cfg.latest, source, |requests|, resolve);
    var plan := Persist.PlanWrites(cfg, fetched, recreate, files.raw, search);
    files' := Persist.Apply(files, plan, stamp);
    outcome := Finished(requests, stop);
  }
}
