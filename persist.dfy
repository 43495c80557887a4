/**
 * The end of main (tweet_search.py): what is written after the fetch (the new
 * items appended to tweets.jsonl, the filtered lines to filtered.txt, the new
 * cursor to config.json) and the line print_tweet writes per item. The files
 * are values here: the raw log as its items, the filtered log as its lines.
 */
module Persist {
  import opened Wrappers
  import opened Tweets
  import Config
  import Filter

  // ---------------------------------------------------------------------
  // print_tweet
  // ---------------------------------------------------------------------

  const PermalinkPrefix: string := "https://twitter.com/i/web/status/"

  /** str.replace for a single character. */
  function ReplaceChar(s: string, from: char, to: char): (r: string)
    ensures |r| == |s|
    ensures forall i :: 0 <= i < |s| ==> r[i] == (if s[i] == from then to else s[i])
  {
    if s == [] then [] else [if s[0] == from then to else s[0]] + ReplaceChar(s[1..], from, to)
  }

  /** text.replace('\t', ' ').replace('\n', ' ') */
  function Flatten(text: string): string
  {
    ReplaceChar(ReplaceChar(text, '\t', ' '), '\n', ' ')
  }

  /** The flattened text has the same length, no tab or newline, and every other character in place. */
  lemma FlattenShape(text: string)
    ensures |Flatten(text)| == |text|
    ensures forall i :: 0 <= i < |text| ==> Flatten(text)[i] != '\t' && Flatten(text)[i] != '\n'
    ensures forall i :: 0 <= i < |text| && text[i] != '\t' && text[i] != '\n' ==> Flatten(text)[i] == text[i]
    ensures forall i :: 0 <= i < |text| && (text[i] == '\t' || text[i] == '\n') ==> Flatten(text)[i] == ' '
  {
  }

  /**
   * The line print_tweet prints (without the newline print adds): permalink,
   * display time, user and flattened text, joined by spaces. `stamp` stands
   * for parsing created_at, adding nine hours and formatting the result.
   */
  function FormatTweet(t: Tweet, stamp: string -> string): string
  {
    PermalinkPrefix + Decimal(t.id) + " " + stamp(t.createdAt) + " " + t.user + " " + Flatten(t.text)
  }

  lemma SplitAt(a: string, b: string)
    ensures (a + b)[..|a|] == a && (a + b)[|a|..] == b
  {
  }

  /** The pieces of a + b + c are where they were put. */
  lemma ThreeParts(a: string, b: string, c: string)
    requires c != []
    ensures var w := a + b + c;
      && |a| + |b| < |w|
      && w[..|a|] == a
      && w[|a|..|a| + |b|] == b
      && w[|a| + |b|] == c[0]
  {
    var w := a + b + c;
    assert w[..|a|] == a;
    assert w[|a|..|a| + |b|] == b;
  }

  /** The line starts with the permalink, whose id reads back, followed by a space. */
  lemma LineStartsWithPermalink(t: Tweet, stamp: string -> string)
    ensures var line := FormatTweet(t, stamp);
      var n := |PermalinkPrefix| + |Decimal(t.id)|;
      && n < |line|
      && line[..|PermalinkPrefix|] == PermalinkPrefix
      && DecimalValue(line[|PermalinkPrefix|..n]) == t.id
      && line[n] == ' '
  {
    var id := Decimal(t.id);
    var rest := " " + stamp(t.createdAt) + " " + t.user + " " + Flatten(t.text);
    assert FormatTweet(t, stamp) == PermalinkPrefix + id + rest;
    ThreeParts(PermalinkPrefix, id, rest);
    DecimalRoundTrip(t.id);
  }

  /** The line ends with the flattened text, which has the text's length. */
  lemma LineEndsWithText(t: Tweet, stamp: string -> string)
    ensures var line := FormatTweet(t, stamp);
      |t.text| <= |line| && line[|line| - |t.text|..] == Flatten(t.text)
  {
    var init := PermalinkPrefix + Decimal(t.id) + " " + stamp(t.createdAt) + " " + t.user + " ";
    FlattenShape(t.text);
    SplitAt(init, Flatten(t.text));
  }

  /** print_tweet over a list of items, one line each. */
  function Lines(ts: seq<Tweet>, stamp: string -> string): (ls: seq<string>)
    ensures |ls| == |ts|
    ensures forall i :: 0 <= i < |ts| ==> ls[i] == FormatTweet(ts[i], stamp)
  {
    if ts == [] then [] else [FormatTweet(ts[0], stamp)] + Lines(ts[1..], stamp)
  }

  lemma {:induction false} LinesAppend(a: seq<Tweet>, b: seq<Tweet>, stamp: string -> string)
    ensures Lines(a + b, stamp) == Lines(a, stamp) + Lines(b, stamp)
  {
    if a == [] {
      assert a + b == b;
    } else {
      assert (a + b)[0] == a[0] && (a + b)[1..] == a[1..] + b;
      LinesAppend(a[1..], b, stamp);
    }
  }

  // ---------------------------------------------------------------------
  // The plan main follows after the fetch
  // ---------------------------------------------------------------------

  /** How filtered.txt is opened: 'w' in recreate mode, 'a' otherwise. */
  datatype WriteMode = Truncate | Append

  /** Either main returns before writing, or it writes the three files. */
  datatype Plan =
    | NoWrites
    | Writes(raw: seq<Tweet>, filtered: seq<Tweet>, mode: WriteMode, config: Config.Config)

  function PolicyOf(c: Config.Config): Filter.Policy
  {
    Filter.Policy(c.acceptText, c.rejectText, c.acceptUser, c.rejectUser)
  }

  /**
   * main after search_tweets: `fetched` is what the fetch returned, `stored`
   * what tweets.jsonl holds (empty when the file is missing), read back only
   * in recreate mode.
   */
  function PlanWrites(cfg: Config.Config, fetched: seq<Tweet>, recreate: bool, stored: seq<Tweet>,
                      search: Filter.Matcher): (p: Plan)
    ensures p.NoWrites? <==> fetched == [] && (!recreate || stored == [])
    ensures p.Writes? ==> SortedById(p.raw) && multiset(p.raw) == multiset(fetched)
    ensures p.Writes? ==> p.mode == (if recreate then Truncate else Append)
    ensures p.Writes? ==>
      p.filtered == Filter.FilterTweets((if recreate then stored else []) + p.raw, PolicyOf(cfg), search)
    ensures p.Writes? ==> p.config.latest.Some? && p.config == cfg.(latest := p.config.latest)
  {
    var tweets := SortById(fetched);
    var prev := if recreate then stored else [];
    if prev == [] && tweets == [] then NoWrites
    else
      var sorted := SortById(tweets);
      SortSortedIsIdentity(tweets);
      var total := prev + sorted;
      Writes(
        sorted,
        Filter.FilterTweets(total, PolicyOf(cfg), search),
        if recreate then Truncate else Append,
        cfg.(latest := Some(total[|total| - 1].id)))
  }

  /** With new items the cursor becomes the largest id fetched; without, the last stored id. */
  lemma PlanCursor(cfg: Config.Config, fetched: seq<Tweet>, recreate: bool, stored: seq<Tweet>,
                   search: Filter.Matcher)
    requires PlanWrites(cfg, fetched, recreate, stored, search).Writes?
    ensures var c := PlanWrites(cfg, fetched, recreate, stored, search).config.latest.value;
      && (fetched != [] ==> (exists t :: t in fetched && t.id == c) && forall t :: t in fetched ==> t.id <= c)
      && (fetched == [] ==> c == stored[|stored| - 1].id)
  {
    var sorted := SortById(fetched);
    SortSortedIsIdentity(sorted);
    var prev := if recreate then stored else [];
    var total := prev + sorted;
    assert PlanWrites(cfg, fetched, recreate, stored, search).config.latest.value == total[|total| - 1].id;
    if fetched != [] {
      SortByIdLastIsMax(fetched);
      assert total[|total| - 1] == sorted[|fetched| - 1];
    } else {
      assert total == stored;
    }
  }

  // ---------------------------------------------------------------------
  // The files
  // ---------------------------------------------------------------------

  /** config.json (None when missing), tweets.jsonl and filtered.txt. */
  datatype Store = Store(config: Option<Config.Config>, raw: seq<Tweet>, filtered: seq<string>)

  /** The three writes of main, in their order, applied to the files. */
  function Apply(s: Store, p: Plan, stamp: string -> string): Store
  {
    match p
    case NoWrites => s
    case Writes(raw, filtered, mode, config) =>
      Store(
        Some(config),
        s.raw + raw,
        (if mode == Truncate then [] else s.filtered) + Lines(filtered, stamp))
  }

  /** One run after the fetch: plan from the stored raw log, then write. */
  function AfterFetch(s: Store, cfg: Config.Config, fetched: seq<Tweet>, recreate: bool,
                      search: Filter.Matcher, stamp: string -> string): Store
  {
    Apply(s, PlanWrites(cfg, fetched, recreate, s.raw, search), stamp)
  }

  /** Rerunning with nothing new and without recreate leaves all three files as they are. */
  lemma NothingNewChangesNothing(s: Store, cfg: Config.Config, search: Filter.Matcher, stamp: string -> string)
    ensures AfterFetch(s, cfg, [], false, search, stamp) == s
  {
  }

  /** The raw log receives exactly the fetched items, in ascending id order. */
  lemma RawLogGrowsByFetched(s: Store, cfg: Config.Config, fetched: seq<Tweet>, recreate: bool,
                             search: Filter.Matcher, stamp: string -> string)
    ensures var s' := AfterFetch(s, cfg, fetched, recreate, search, stamp);
      && |s'.raw| == |s.raw| + |fetched|
      && s'.raw[..|s.raw|] == s.raw
      && SortedById(s'.raw[|s.raw|..])
      && multiset(s'.raw[|s.raw|..]) == multiset(fetched)
  {
    var p := PlanWrites(cfg, fetched, recreate, s.raw, search);
    var s' := Apply(s, p, stamp);
    if p.Writes? {
      assert s'.raw == s.raw + p.raw;
      assert s'.raw[|s.raw|..] == p.raw;
    } else {
      assert s'.raw[|s.raw|..] == [];
    }
  }

  /**
   * If the raw log is sorted and every fetched id is above every stored one
   * (the API honours since_id), the raw log stays sorted.
   */
  lemma RawLogStaysSorted(s: Store, cfg: Config.Config, fetched: seq<Tweet>, recreate: bool,
                          search: Filter.Matcher, stamp: string -> string)
    requires SortedById(s.raw)
    requires forall t, u :: t in fetched && u in s.raw ==> u.id < t.id
    ensures SortedById(AfterFetch(s, cfg, fetched, recreate, search, stamp).raw)
  {
    var p := PlanWrites(cfg, fetched, recreate, s.raw, search);
    if p.Writes? {
      var r := s.raw + p.raw;
      SameElements(p.raw, fetched);
      forall i, j | 0 <= i < j < |r| ensures r[i].id <= r[j].id {
        if j >= |s.raw| && i < |s.raw| {
          assert r[j] == p.raw[j - |s.raw|] && r[j] in p.raw;
          assert r[i] in s.raw;
        } else if i >= |s.raw| {
          assert r[i] == p.raw[i - |s.raw|] && r[j] == p.raw[j - |s.raw|];
        }
      }
    }
  }

  /** When the fetched ids lie above the old cursor, the cursor moves up. */
  lemma CursorAdvances(cfg: Config.Config, fetched: seq<Tweet>, recreate: bool, stored: seq<Tweet>,
                       search: Filter.Matcher)
    requires cfg.latest.Some? && fetched != []
    requires forall t :: t in fetched ==> cfg.latest.value < t.id
    ensures PlanWrites(cfg, fetched, recreate, stored, search).Writes?
    ensures cfg.latest.value < PlanWrites(cfg, fetched, recreate, stored, search).config.latest.value
  {
    PlanCursor(cfg, fetched, recreate, stored, search);
  }

  /** In recreate mode filtered.txt becomes the lines of the whole new raw log, refiltered. */
  lemma RecreateRefiltersRawLog(s: Store, cfg: Config.Config, fetched: seq<Tweet>,
                                search: Filter.Matcher, stamp: string -> string)
    requires fetched != [] || s.raw != []
    ensures var s' := AfterFetch(s, cfg, fetched, true, search, stamp);
      s'.filtered == Lines(Filter.FilterTweets(s'.raw, PolicyOf(cfg), search), stamp)
  {
  }

  /**
   * In append mode the filtered log stays the refiltered raw log, provided it
   * was so before and the policy did not change.
   */
  lemma AppendKeepsFilteredInStep(s: Store, cfg: Config.Config, fetched: seq<Tweet>,
                                  search: Filter.Matcher, stamp: string -> string)
    requires s.filtered == Lines(Filter.FilterTweets(s.raw, PolicyOf(cfg), search), stamp)
    ensures var s' := AfterFetch(s, cfg, fetched, false, search, stamp);
      s'.filtered == Lines(Filter.FilterTweets(s'.raw, PolicyOf(cfg), search), stamp)
  {
    var p := PlanWrites(cfg, fetched, false, s.raw, search);
    if p.Writes? {
      assert [] + p.raw == p.raw;
      Filter.FilterAppend(s.raw, p.raw, PolicyOf(cfg), search);
      LinesAppend(Filter.FilterTweets(s.raw, PolicyOf(cfg), search), Filter.FilterTweets(p.raw, PolicyOf(cfg), search), stamp);
    }
  }

  /** Rebuilding filtered.txt twice in a row with no new items gives the same files. */
  lemma RecreateIsIdempotent(s: Store, cfg: Config.Config, search: Filter.Matcher, stamp: string -> string)
    ensures var s1 := AfterFetch(s, cfg, [], true, search, stamp);
      AfterFetch(s1, cfg, [], true, search, stamp) == s1
  {
    var p := PlanWrites(cfg, [], true, s.raw, search);
    if p.Writes? {
      assert s.raw + p.raw == s.raw;
    }
  }
}
