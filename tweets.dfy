/**
 * The fetched item (a tweet) as search_tweets builds it and main stores it,
 * the decimal rendering Python's str() gives its id, and the stable sort by id
 * that main applies to a batch of fetched items.
 */
module Tweets {

  /** One item: the four fields search_tweets keeps from a status. */
  datatype Tweet = Tweet(id: int, createdAt: string, text: string, user: string)

  // ---------------------------------------------------------------------
  // Decimal ids: str(n) for a Python int
  // ---------------------------------------------------------------------

  predicate IsDigit(c: char) { '0' <= c <= '9' }

  predicate AllDigits(s: string) { forall i :: 0 <= i < |s| ==> IsDigit(s[i]) }

  function DigitChar(d: nat): (c: char)
    requires d < 10
    ensures IsDigit(c) && c as int - '0' as int == d
  {
    (d + '0' as int) as char
  }

  /** The digits of a natural number, most significant first, without leading zeros. */
  function NatDigits(n: nat): (s: string)
    ensures |s| >= 1 && AllDigits(s)
    ensures s[0] == '0' ==> n == 0
    decreases n
  {
    if n < 10 then [DigitChar(n)] else NatDigits(n / 10) + [DigitChar(n % 10)]
  }

  /** The value of a string of decimal digits. */
  function DigitsValue(s: string): nat
    requires AllDigits(s)
  {
    if s == [] then 0 else DigitsValue(s[..|s| - 1]) * 10 + (s[|s| - 1] as int - '0' as int)
  }

  lemma {:induction false} NatDigitsRoundTrip(n: nat)
    ensures DigitsValue(NatDigits(n)) == n
    decreases n
  {
    if n >= 10 {
      var s := NatDigits(n);
      assert s[..|s| - 1] == NatDigits(n / 10);
      NatDigitsRoundTrip(n / 10);
    }
  }

  /** str(n): an optional minus sign followed by the digits of |n|. */
  function Decimal(n: int): (s: string)
    ensures |s| >= 1
    ensures n >= 0 <==> AllDigits(s)
  {
    if n < 0 then
      var s := "-" + NatDigits(-n);
      assert !IsDigit(s[0]);
      s
    else NatDigits(n)
  }

  /** Reads back a string that Decimal may have written. */
  function DecimalValue(s: string): int
    requires |s| >= 1
    requires AllDigits(s) || (s[0] == '-' && AllDigits(s[1..]))
  {
    if s[0] == '-' then 0 - DigitsValue(s[1..]) else DigitsValue(s)
  }

  /** str() is injective on ints: the id can be read back from its rendering. */
  lemma DecimalRoundTrip(n: int)
    ensures var s := Decimal(n); |s| >= 1 && (AllDigits(s) || (s[0] == '-' && AllDigits(s[1..])))
    ensures DecimalValue(Decimal(n)) == n
  {
    if n < 0 {
      var s := Decimal(n);
      assert s[1..] == NatDigits(-n);
      NatDigitsRoundTrip(-n);
    } else {
      NatDigitsRoundTrip(n);
    }
  }

  // ---------------------------------------------------------------------
  // sorted(..., key=lambda t: t['id'])
  // ---------------------------------------------------------------------

  predicate SortedById(s: seq<Tweet>)
  {
    forall i, j :: 0 <= i < j < |s| ==> s[i].id <= s[j].id
  }

  /** Places t after every element whose id is not larger, so equal ids keep their order. */
  function Insert(t: Tweet, s: seq<Tweet>): (r: seq<Tweet>)
    ensures multiset(r) == multiset(s) + multiset{t}
    ensures |r| == |s| + 1
  {
    if s == [] then [t]
    else if t.id < s[0].id then [t] + s
    else
      assert s == [s[0]] + s[1..];
      [s[0]] + Insert(t, s[1..])
  }

  lemma {:induction false} InsertMembers(t: Tweet, s: seq<Tweet>)
    ensures forall x :: x in Insert(t, s) ==> x in s || x == t
  {
    if s != [] && t.id >= s[0].id {
      InsertMembers(t, s[1..]);
    }
  }

  lemma {:induction false} InsertSorted(t: Tweet, s: seq<Tweet>)
    requires SortedById(s)
    ensures SortedById(Insert(t, s))
  {
    if s != [] && t.id >= s[0].id {
      var tail := s[1..];
      assert SortedById(tail) by {
        forall i, j | 0 <= i < j < |tail| ensures tail[i].id <= tail[j].id {
          assert tail[i] == s[i + 1] && tail[j] == s[j + 1];
        }
      }
      var rest := Insert(t, tail);
      InsertSorted(t, tail);
      InsertMembers(t, tail);
      assert forall x :: x in rest ==> s[0].id <= x.id;
      var r := [s[0]] + rest;
      assert r == Insert(t, s);
      forall i, j | 0 <= i < j < |r| ensures r[i].id <= r[j].id {
        assert r[j] == rest[j - 1];
        if i > 0 {
          assert r[i] == rest[i - 1];
        }
      }
    }
  }

  /** Python's sorted by id: a stable insertion sort. */
  function SortById(s: seq<Tweet>): (r: seq<Tweet>)
    ensures SortedById(r)
    ensures multiset(r) == multiset(s)
    ensures |r| == |s|
  {
    if s == [] then []
    else
      assert s == s[..|s| - 1] + [s[|s| - 1]];
      var init := SortById(s[..|s| - 1]);
      InsertSorted(s[|s| - 1], init);
      Insert(s[|s| - 1], init)
  }

  lemma {:induction false} InsertLargest(t: Tweet, s: seq<Tweet>)
    requires forall i :: 0 <= i < |s| ==> s[i].id <= t.id
    ensures Insert(t, s) == s + [t]
  {
    if s != [] {
      assert s[0].id <= t.id;
      InsertLargest(t, s[1..]);
      assert s == [s[0]] + s[1..];
    }
  }

  lemma SortedInit(s: seq<Tweet>)
    requires SortedById(s) && s != []
    ensures SortedById(s[..|s| - 1])
    ensures forall i :: 0 <= i < |s| - 1 ==> s[i].id <= s[|s| - 1].id
  {
  }

  /** Sorting an already sorted batch changes nothing (main sorts the fetched batch twice). */
  lemma {:induction false} SortSortedIsIdentity(s: seq<Tweet>)
    requires SortedById(s)
    ensures SortById(s) == s
  {
    if s != [] {
      var init, last := s[..|s| - 1], s[|s| - 1];
      SortedInit(s);
      SortSortedIsIdentity(init);
      InsertLargest(last, init);
      assert init + [last] == s;
    }
  }

  /** The largest id of a sorted non-empty batch is at its end. */
  lemma SortedLastIsMax(s: seq<Tweet>)
    requires SortedById(s) && s != []
    ensures forall x :: x in s ==> x.id <= s[|s| - 1].id
  {
    forall x | x in s ensures x.id <= s[|s| - 1].id {
      var k :| 0 <= k < |s| && s[k] == x;
    }
  }

  /** Equal multisets hold the same elements. */
  lemma SameElements(a: seq<Tweet>, b: seq<Tweet>)
    requires multiset(a) == multiset(b)
    ensures forall x :: x in a ==> x in b
  {
    forall x | x in a ensures x in b {
      assert x in multiset(a);
    }
  }

  lemma SortByIdLastIsMax(s: seq<Tweet>)
    requires s != []
    ensures forall x :: x in s ==> x.id <= SortById(s)[|s| - 1].id
    ensures SortById(s)[|s| - 1] in s
  {
    var r := SortById(s);
    SameElements(s, r);
    SameElements(r, s);
    SortedLastIsMax(r);
    assert r[|r| - 1] in r;
  }
}
