/**
 * request_url (tweet_search.py): the search endpoint, '?', and the
 * '&'-joined key=value fields of the parameters whose value is truthy.
 */
module Query {
  import opened Wrappers
  import Tweets

  const SearchApi: string := "https://api.twitter.com/1.1/search/tweets.json"

  /** The Python values a request parameter takes: a string, an int or None. */
  datatype Value = Str(s: string) | Int(n: int) | Null

  datatype Param = Param(key: string, value: Value)

  /** Python truthiness: empty strings, zero and None are dropped. */
  predicate Truthy(v: Value)
  {
    match v
    case Str(s) => s != ""
    case Int(n) => n != 0
    case Null => false
  }

  /** str(v) */
  function Render(v: Value): string
  {
    match v
    case Str(s) => s
    case Int(n) => Tweets.Decimal(n)
    case Null => "None"
  }

  function OptionalInt(o: Option<int>): Value
  {
    if o.Some? then Int(o.value) else Null
  }

  /** The parameters that survive the `if v` of the comprehension, in their order. */
  function Kept(ps: seq<Param>): (r: seq<Param>)
    ensures |r| <= |ps|
  {
    if ps == [] then [] else (if Truthy(ps[0].value) then [ps[0]] else []) + Kept(ps[1..])
  }

  /** Exactly the truthy parameters are kept. */
  lemma {:induction false} KeptMembers(ps: seq<Param>)
    ensures forall p :: p in Kept(ps) <==> p in ps && Truthy(p.value)
  {
    if ps != [] {
      KeptMembers(ps[1..]);
      assert forall p :: p in ps <==> p == ps[0] || p in ps[1..];
    }
  }

  function Keys(ps: seq<Param>): seq<string>
  {
    if ps == [] then [] else [ps[0].key] + Keys(ps[1..])
  }

  /** '&'.join(parts) */
  function Join(parts: seq<string>): string
  {
    if parts == [] then "" else if |parts| == 1 then parts[0] else parts[0] + "&" + Join(parts[1..])
  }

  /** s.split('&'): the pieces between the separators, a single empty piece for "". */
  function SplitFields(s: string): (parts: seq<string>)
    ensures |parts| >= 1
  {
    if s == [] then [""]
    else if s[0] == '&' then [""] + SplitFields(s[1..])
    else var rest := SplitFields(s[1..]); [[s[0]] + rest[0]] + rest[1..]
  }

  /** A piece without '&' followed by the separator splits off as the first piece. */
  lemma {:induction false} SplitFieldsAfter(p: string, x: string)
    requires '&' !in p
    ensures SplitFields(p + "&" + x) == [p] + SplitFields(x)
  {
    if p == [] {
      assert p + "&" + x == "&" + x;
      assert ("&" + x)[1..] == x;
    } else {
      var s := p + "&" + x;
      assert s[0] == p[0] && s[1..] == p[1..] + "&" + x;
      SplitFieldsAfter(p[1..], x);
      assert [p[0]] + p[1..] == p;
    }
  }

  /** A piece without '&' is not split. */
  lemma {:induction false} SplitFieldsWhole(p: string)
    requires '&' !in p
    ensures SplitFields(p) == [p]
  {
    if p != [] {
      SplitFieldsWhole(p[1..]);
      assert [p[0]] + p[1..] == p;
    }
  }

  /** Splitting at '&' undoes the join when no part contains '&'. */
  lemma {:induction false} SplitJoin(parts: seq<string>)
    requires parts != []
    requires forall i :: 0 <= i < |parts| ==> '&' !in parts[i]
    ensures SplitFields(Join(parts)) == parts
  {
    if |parts| == 1 {
      SplitFieldsWhole(parts[0]);
    } else {
      SplitJoin(parts[1..]);
      SplitFieldsAfter(parts[0], Join(parts[1..]));
      assert parts == [parts[0]] + parts[1..];
    }
  }

  /** One field, '{}={}'.format(k, quote_plus(str(v))), with quote_plus left abstract. */
  function Field(p: Param, quote: string -> string): string
  {
    p.key + "=" + quote(Render(p.value))
  }

  function Fields(ps: seq<Param>, quote: string -> string): (fs: seq<string>)
    ensures |fs| == |ps| && forall i :: 0 <= i < |ps| ==> fs[i] == Field(ps[i], quote)
  {
    if ps == [] then [] else [Field(ps[0], quote)] + Fields(ps[1..], quote)
  }

  /** request_url: the endpoint, '?', and the '&'-joined fields of the kept parameters. */
  function RequestUrl(ps: seq<Param>, quote: string -> string): string
  {
    SearchApi + "?" + Join(Fields(Kept(ps), quote))
  }

  /**
   * quote_plus escapes '&', so when no key holds one, the query string of a URL
   * with at least one field splits back into exactly the fields of the kept
   * parameters, in their order.
   */
  lemma {:induction false} QuerySplitsIntoFields(ps: seq<Param>, quote: string -> string)
    requires forall s :: '&' !in quote(s)
    requires forall i :: 0 <= i < |ps| ==> '&' !in ps[i].key
    ensures Kept(ps) != [] ==>
      SplitFields(RequestUrl(ps, quote)[|SearchApi| + 1..]) == Fields(Kept(ps), quote)
  {
    var k := Kept(ps);
    if k != [] {
      var fs := Fields(k, quote);
      KeptMembers(ps);
      forall i | 0 <= i < |fs|
        ensures '&' !in fs[i]
      {
        assert k[i] in ps;
        var j :| 0 <= j < |ps| && ps[j] == k[i];
        assert '&' !in k[i].key;
        assert fs[i] == k[i].key + "=" + quote(Render(k[i].value));
      }
      SplitJoin(fs);
    }
  }

  /** The parameters search_tweets passes, in its order. */
  function SearchParams(keywords: string, maxId: Option<int>, sinceId: Option<int>): seq<Param>
  {
    [ Param("q", Str(keywords)),
      Param("count", Int(100)),
      Param("include_entities", Str("false")),
      Param("tweet_mode", Str("extended")),
      Param("max_id", OptionalInt(maxId)),
      Param("since_id", OptionalInt(sinceId)) ]
  }

  function SearchUrl(keywords: string, maxId: Option<int>, sinceId: Option<int>, quote: string -> string): string
  {
    RequestUrl(SearchParams(keywords, maxId, sinceId), quote)
  }

  /** True when a bound is present and non-zero, i.e. when request_url keeps it. */
  predicate Sent(o: Option<int>)
  {
    o.Some? && o.value != 0
  }

  /** Keys distribute over concatenation. */
  lemma KeysAppend(a: seq<Param>, b: seq<Param>)
    ensures Keys(a + b) == Keys(a) + Keys(b)
  {
    if a != [] {
      assert (a + b)[0] == a[0] && (a + b)[1..] == a[1..] + b;
      KeysAppend(a[1..], b);
      assert Keys(a) == [a[0].key] + Keys(a[1..]);
    } else {
      assert a + b == b;
    }
  }

  /** Keeping distributes over one parameter followed by others. */
  lemma KeptCons(p: Param, rest: seq<Param>)
    ensures Kept([p] + rest) == (if Truthy(p.value) then [p] else []) + Kept(rest)
  {
    assert ([p] + rest)[1..] == rest;
  }

  /** The three fixed parameters are always kept; the two bounds only when sent. */
  lemma TailKept(maxId: Option<int>, sinceId: Option<int>)
    ensures Kept([Param("count", Int(100)), Param("include_entities", Str("false")), Param("tweet_mode", Str("extended")),
                  Param("max_id", OptionalInt(maxId)), Param("since_id", OptionalInt(sinceId))]) ==
      [Param("count", Int(100)), Param("include_entities", Str("false")), Param("tweet_mode", Str("extended"))]
      + (if Sent(maxId) then [Param("max_id", Int(maxId.value))] else [])
      + (if Sent(sinceId) then [Param("since_id", Int(sinceId.value))] else [])
  {
    var p1, p2, p3 := Param("count", Int(100)), Param("include_entities", Str("false")), Param("tweet_mode", Str("extended"));
    var p4, p5 := Param("max_id", OptionalInt(maxId)), Param("since_id", OptionalInt(sinceId));
    var t5 := [p5];
    KeptCons(p5, []);
    var t4 := [p4] + t5;
    KeptCons(p4, t5);
    var t3 := [p3] + t4;
    KeptCons(p3, t4);
    var t2 := [p2] + t3;
    KeptCons(p2, t3);
    var t1 := [p1] + t2;
    KeptCons(p1, t2);
    assert [p1, p2, p3, p4, p5] == t1;
  }

  /** The parameters request_url keeps for a search: q only when there are keywords, bounds only when sent. */
  lemma SearchKept(keywords: string, maxId: Option<int>, sinceId: Option<int>)
    ensures Kept(SearchParams(keywords, maxId, sinceId)) ==
      (if keywords != "" then [Param("q", Str(keywords))] else [])
      + [Param("count", Int(100)), Param("include_entities", Str("false")), Param("tweet_mode", Str("extended"))]
      + (if Sent(maxId) then [Param("max_id", Int(maxId.value))] else [])
      + (if Sent(sinceId) then [Param("since_id", Int(sinceId.value))] else [])
  {
    var p0 := Param("q", Str(keywords));
    var rest := [Param("count", Int(100)), Param("include_entities", Str("false")), Param("tweet_mode", Str("extended")),
                 Param("max_id", OptionalInt(maxId)), Param("since_id", OptionalInt(sinceId))];
    TailKept(maxId, sinceId);
    KeptCons(p0, rest);
    assert SearchParams(keywords, maxId, sinceId) == [p0] + rest;
  }

  /**
   * The keys of a search request: q only when the keywords are non-empty, the
   * three fixed ones, then max_id and since_id only when they are set and non-zero.
   */
  lemma SearchKeys(keywords: string, maxId: Option<int>, sinceId: Option<int>)
    ensures Keys(Kept(SearchParams(keywords, maxId, sinceId))) ==
      (if keywords != "" then ["q"] else [])
      + ["count", "include_entities", "tweet_mode"]
      + (if Sent(maxId) then ["max_id"] else [])
      + (if Sent(sinceId) then ["since_id"] else [])
  {
    SearchKept(keywords, maxId, sinceId);
    var a := if keywords != "" then [Param("q", Str(keywords))] else [];
    var b := [Param("count", Int(100)), Param("include_entities", Str("false")), Param("tweet_mode", Str("extended"))];
    var c := if Sent(maxId) then [Param("max_id", Int(maxId.value))] else [];
    var d := if Sent(sinceId) then [Param("since_id", Int(sinceId.value))] else [];
    KeysOfFour(a, b, c, d);
    assert Keys(a) == (if keywords != "" then ["q"] else []);
    assert Keys(b) == ["count", "include_entities", "tweet_mode"];
    assert Keys(c) == (if Sent(maxId) then ["max_id"] else []);
    assert Keys(d) == (if Sent(sinceId) then ["since_id"] else []);
  }

  lemma KeysOfFour(a: seq<Param>, b: seq<Param>, c: seq<Param>, d: seq<Param>)
    ensures Keys(a + b + c + d) == Keys(a) + Keys(b) + Keys(c) + Keys(d)
  {
    KeysAppend(a + b + c, d);
    KeysAppend(a + b, c);
    KeysAppend(a, b);
  }

  /** The fields of two lists of parameters are those of the first, then those of the second. */
  lemma FieldsAppend(a: seq<Param>, b: seq<Param>, quote: string -> string)
    ensures Fields(a + b, quote) == Fields(a, quote) + Fields(b, quote)
  {
    var l, fa, fb := Fields(a + b, quote), Fields(a, quote), Fields(b, quote);
    forall i | 0 <= i < |l|
      ensures l[i] == (fa + fb)[i]
    {
      if i < |a| {
        assert (a + b)[i] == a[i];
      } else {
        assert (a + b)[i] == b[i - |a|];
      }
    }
  }

  /**
   * The URL of a search request: q only for non-empty keywords, then count=100,
   * include_entities=false and tweet_mode=extended, then max_id and since_id
   * only when they are set and non-zero, each value passed through quote_plus.
   */
  lemma SearchUrlShape(keywords: string, maxId: Option<int>, sinceId: Option<int>, quote: string -> string)
    ensures SearchUrl(keywords, maxId, sinceId, quote) ==
      SearchApi + "?" + Join(
        (if keywords != "" then ["q=" + quote(keywords)] else [])
        + ["count=" + quote("100"), "include_entities=" + quote("false"), "tweet_mode=" + quote("extended")]
        + (if Sent(maxId) then ["max_id=" + quote(Tweets.Decimal(maxId.value))] else [])
        + (if Sent(sinceId) then ["since_id=" + quote(Tweets.Decimal(sinceId.value))] else []))
  {
    SearchFields(keywords, maxId, sinceId, quote);
  }

  /** The fields of the parameters a search keeps. */
  lemma SearchFields(keywords: string, maxId: Option<int>, sinceId: Option<int>, quote: string -> string)
    ensures Fields(Kept(SearchParams(keywords, maxId, sinceId)), quote) ==
        (if keywords != "" then ["q=" + quote(keywords)] else [])
        + ["count=" + quote("100"), "include_entities=" + quote("false"), "tweet_mode=" + quote("extended")]
        + (if Sent(maxId) then ["max_id=" + quote(Tweets.Decimal(maxId.value))] else [])
        + (if Sent(sinceId) then ["since_id=" + quote(Tweets.Decimal(sinceId.value))] else [])
  {
    SearchKept(keywords, maxId, sinceId);
    var a := if keywords != "" then [Param("q", Str(keywords))] else [];
    var b := [Param("count", Int(100)), Param("include_entities", Str("false")), Param("tweet_mode", Str("extended"))];
    var c := if Sent(maxId) then [Param("max_id", Int(maxId.value))] else [];
    var d := if Sent(sinceId) then [Param("since_id", Int(sinceId.value))] else [];
    FieldsOfFour(a, b, c, d, quote);
    FieldsOfOne(a, "q", Str(keywords), "q=", quote);
    FieldsOfOne(c, "max_id", Int(if Sent(maxId) then maxId.value else 0), "max_id=", quote);
    FieldsOfOne(d, "since_id", Int(if Sent(sinceId) then sinceId.value else 0), "since_id=", quote);
    FixedFields(quote);
  }

  lemma FieldsOfFour(a: seq<Param>, b: seq<Param>, c: seq<Param>, d: seq<Param>, quote: string -> string)
    ensures Fields(a + b + c + d, quote) == Fields(a, quote) + Fields(b, quote) + Fields(c, quote) + Fields(d, quote)
  {
    FieldsAppend(a + b + c, d, quote);
    FieldsAppend(a + b, c, quote);
    FieldsAppend(a, b, quote);
  }

  /** The fields of the three parameters every search sends. */
  lemma FixedFields(quote: string -> string)
    ensures Fields([Param("count", Int(100)), Param("include_entities", Str("false")), Param("tweet_mode", Str("extended"))], quote)
      == ["count=" + quote("100"), "include_entities=" + quote("false"), "tweet_mode=" + quote("extended")]
  {
    assert Tweets.Decimal(100) == "100" by {
      assert Tweets.NatDigits(1) == "1";
      assert Tweets.NatDigits(10) == "10";
    }
    var l := Fields([Param("count", Int(100)), Param("include_entities", Str("false")), Param("tweet_mode", Str("extended"))], quote);
    assert "count" + "=" == "count=";
    assert "include_entities" + "=" == "include_entities=";
    assert "tweet_mode" + "=" == "tweet_mode=";
    assert l[0] == "count" + "=" + quote(Render(Int(100)));
    assert l[1] == "include_entities" + "=" + quote("false");
    assert l[2] == "tweet_mode" + "=" + quote("extended");
  }

  /** The fields of an empty list, or of one parameter with a given key. */
  lemma FieldsOfOne(ps: seq<Param>, key: string, v: Value, prefix: string, quote: string -> string)
    requires ps == [] || ps == [Param(key, v)]
    requires prefix == key + "="
    ensures Fields(ps, quote) == (if ps == [] then [] else [prefix + quote(Render(v))])
  {
  }

  /** A request without a max_id bound never carries a max_id field. */
  lemma NoMaxIdField(keywords: string, sinceId: Option<int>)
    ensures "max_id" !in Keys(Kept(SearchParams(keywords, None, sinceId)))
  {
    SearchKeys(keywords, None, sinceId);
  }
}
