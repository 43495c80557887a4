/**
 * filter_tweets (tweet_search.py): keep, in order, the items whose text the
 * accept pattern finds and the reject pattern does not, and whose user name
 * likewise. The regex engine is left abstract: `search(pattern, subject)`
 * stands for re.compile(pattern).search(subject) finding a match.
 */
module Filter {
  import opened Tweets
  import Seqs

  /** Whether re.search finds the pattern anywhere in the subject. */
  type Matcher = (string, string) -> bool

  /** The four patterns of the filter. */
  datatype Policy = Policy(acceptText: string, rejectText: string, acceptUser: string, rejectUser: string)

  /** The condition of the comprehension in filter_tweets. */
  predicate Passes(t: Tweet, p: Policy, search: Matcher)
  {
    && search(p.acceptText, t.text)
    && !search(p.rejectText, t.text)
    && search(p.acceptUser, t.user)
    && !search(p.rejectUser, t.user)
  }

  function FilterTweets(ts: seq<Tweet>, p: Policy, search: Matcher): (r: seq<Tweet>)
    ensures |r| <= |ts|
    ensures forall t :: t in r ==> Passes(t, p, search)
    ensures multiset(r) <= multiset(ts)
  {
    if ts == [] then []
    else
      assert ts == [ts[0]] + ts[1..];
      (if Passes(ts[0], p, search) then [ts[0]] else []) + FilterTweets(ts[1..], p, search)
  }

  /** An item is kept exactly when it is in the input and passes all four tests. */
  lemma {:induction false} FilterMembers(ts: seq<Tweet>, p: Policy, search: Matcher)
    ensures forall t :: t in FilterTweets(ts, p, search) <==> t in ts && Passes(t, p, search)
  {
    if ts != [] {
      FilterMembers(ts[1..], p, search);
      assert forall t :: t in ts <==> t == ts[0] || t in ts[1..];
    }
  }

  /** Filtering distributes over concatenation, so it keeps the input's order. */
  lemma {:induction false} FilterAppend(a: seq<Tweet>, b: seq<Tweet>, p: Policy, search: Matcher)
    ensures FilterTweets(a + b, p, search) == FilterTweets(a, p, search) + FilterTweets(b, p, search)
  {
    if a == [] {
      assert a + b == b;
    } else {
      assert (a + b)[0] == a[0] && (a + b)[1..] == a[1..] + b;
      FilterAppend(a[1..], b, p, search);
      Seqs.Regroup(if Passes(a[0], p, search) then [a[0]] else [], FilterTweets(a[1..], p, search), FilterTweets(b, p, search));
    }
  }

  /** Filtering what was already filtered changes nothing. */
  lemma FilterIdempotent(ts: seq<Tweet>, p: Policy, search: Matcher)
    ensures FilterTweets(FilterTweets(ts, p, search), p, search) == FilterTweets(ts, p, search)
  {
    FilterKeepsAllPassing(FilterTweets(ts, p, search), p, search);
  }

  /** When every item passes, nothing is dropped. */
  lemma {:induction false} FilterKeepsAllPassing(ts: seq<Tweet>, p: Policy, search: Matcher)
    requires forall t :: t in ts ==> Passes(t, p, search)
    ensures FilterTweets(ts, p, search) == ts
  {
    if ts != [] {
      assert forall t :: t in ts[1..] ==> t in ts;
      FilterKeepsAllPassing(ts[1..], p, search);
      assert ts == [ts[0]] + ts[1..];
    }
  }

  /** A reject pattern for the text that matches everything empties the result. */
  lemma {:induction false} RejectAllTextYieldsNothing(ts: seq<Tweet>, p: Policy, search: Matcher)
    requires forall s :: search(p.rejectText, s)
    ensures FilterTweets(ts, p, search) == []
  {
    if ts != [] {
      RejectAllTextYieldsNothing(ts[1..], p, search);
    }
  }

  /**
   * With the built-in patterns ('' finds a match in every string, '(?!)' in
   * none) every item passes.
   */
  lemma DefaultPolicyKeepsAll(ts: seq<Tweet>, search: Matcher)
    requires forall s :: search("", s) && !search("(?!)", s)
    ensures FilterTweets(ts, Policy("", "(?!)", "", "(?!)"), search) == ts
  {
    FilterKeepsAllPassing(ts, Policy("", "(?!)", "", "(?!)"), search);
  }
}
