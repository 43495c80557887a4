/**
 * URL_PATTERN and resolve_redirects (tweet_search.py): every match of
 * https://t.co/[0-9a-zA-Z]+, found left to right without overlap, is replaced
 * by the address it redirects to when that can be resolved, and kept otherwise.
 * The network lookup is an oracle from a matched token to an optional address.
 */
module Redirect {
  import opened Wrappers
  import Seqs

  /** The resolver: the final address of a token, or None when the lookup failed. */
  type Resolver = string -> Option<string>

  predicate IsAlnum(c: char)
  {
    '0' <= c <= '9' || 'a' <= c <= 'z' || 'A' <= c <= 'Z'
  }

  /**
   * The words URL_PATTERN describes: "https://t", any one character but a
   * newline (the dot is not escaped), "co/", then one or more ASCII letters or digits.
   */
  predicate IsToken(w: string)
  {
    && |w| >= 14
    && w[..9] == "https://t"
    && w[9] != '\n'
    && w[10..13] == "co/"
    && forall k :: 13 <= k < |w| ==> IsAlnum(w[k])
  }

  /** The length of the run of letters and digits starting at i. */
  function AlnumRun(text: string, i: nat): (n: nat)
    requires i <= |text|
    ensures i + n <= |text|
    decreases |text| - i
  {
    if i < |text| && IsAlnum(text[i]) then 1 + AlnumRun(text, i + 1) else 0
  }

  /** The run holds only letters and digits and is maximal: the next character is neither. */
  lemma {:induction false} AlnumRunIsMaximal(text: string, i: nat)
    requires i <= |text|
    ensures forall k :: i <= k < i + AlnumRun(text, i) ==> IsAlnum(text[k])
    ensures i + AlnumRun(text, i) == |text| || !IsAlnum(text[i + AlnumRun(text, i)])
    decreases |text| - i
  {
    if i < |text| && IsAlnum(text[i]) {
      AlnumRunIsMaximal(text, i + 1);
    }
  }

  /** The thirteen characters before the run, "https://t" + one non-newline + "co/", start at i. */
  predicate FixedPartAt(text: string, i: nat)
    requires i + 13 <= |text|
  {
    && text[i] == 'h' && text[i + 1] == 't' && text[i + 2] == 't' && text[i + 3] == 'p' && text[i + 4] == 's'
    && text[i + 5] == ':' && text[i + 6] == '/' && text[i + 7] == '/' && text[i + 8] == 't'
    && text[i + 9] != '\n'
    && text[i + 10] == 'c' && text[i + 11] == 'o' && text[i + 12] == '/'
  }

  /** Where the pattern's match starting at i ends, if it has one; the final run is greedy. */
  function MatchAt(text: string, i: nat): (e: Option<nat>)
    requires i <= |text|
    ensures e.Some? ==> i + 14 <= e.value <= |text|
  {
    if i + 14 <= |text| && FixedPartAt(text, i) && AlnumRun(text, i + 13) >= 1
    then Some(i + 13 + AlnumRun(text, i + 13))
    else None
  }

  /** What MatchAt finds is a token, and no longer token starts at the same place. */
  lemma MatchAtIsToken(text: string, i: nat)
    requires i <= |text| && MatchAt(text, i).Some?
    ensures IsToken(text[i..MatchAt(text, i).value])
    ensures MatchAt(text, i).value == |text| || !IsAlnum(text[MatchAt(text, i).value])
  {
    var e := MatchAt(text, i).value;
    var w := text[i..e];
    AlnumRunIsMaximal(text, i + 13);
    assert w[..9] == "https://t";
    assert w[10..13] == "co/";
    forall k | 13 <= k < |w| ensures IsAlnum(w[k]) {
      assert w[k] == text[i + k];
    }
  }

  /** Every token starting at i is found, and the match is the longest one. */
  lemma MatchAtIsGreedy(text: string, i: nat, e: nat)
    requires i <= e <= |text| && IsToken(text[i..e])
    ensures MatchAt(text, i).Some? && MatchAt(text, i).value >= e
  {
    var w := text[i..e];
    assert e >= i + 14;
    assert w[..9] == "https://t" && w[10..13] == "co/";
    forall k | 0 <= k < 13 ensures text[i + k] == w[k] { }
    assert FixedPartAt(text, i) by {
      assert w[..9][0] == 'h' && w[..9][1] == 't' && w[..9][2] == 't' && w[..9][3] == 'p' && w[..9][4] == 's';
      assert w[..9][5] == ':' && w[..9][6] == '/' && w[..9][7] == '/' && w[..9][8] == 't';
      assert w[10..13][0] == 'c' && w[10..13][1] == 'o' && w[10..13][2] == '/';
    }
    forall k | i + 13 <= k < e ensures IsAlnum(text[k]) {
      assert text[k] == w[k - i];
    }
    AlnumRunCovers(text, i + 13, e);
  }

  lemma {:induction false} AlnumRunCovers(text: string, i: nat, e: nat)
    requires i <= e <= |text|
    requires forall k :: i <= k < e ==> IsAlnum(text[k])
    ensures i + AlnumRun(text, i) >= e
    decreases e - i
  {
    if i < e {
      AlnumRunCovers(text, i + 1, e);
    }
  }

  /** One match: the token is text[start..end]. */
  datatype Span = Span(start: nat, end: nat)

  /** The match finditer yields next when it resumes at pos. */
  function NextMatch(text: string, pos: nat): (m: Option<Span>)
    requires pos <= |text|
    ensures m.Some? ==> pos <= m.value.start < m.value.end <= |text|
    decreases |text| - pos
  {
    if pos == |text| then None
    else
      match MatchAt(text, pos)
      case Some(e) => Some(Span(pos, e))
      case None => NextMatch(text, pos + 1)
  }

  /** NextMatch is the leftmost match at or after pos, and None means there is none. */
  lemma {:induction false} NextMatchIsLeftmost(text: string, pos: nat)
    requires pos <= |text|
    ensures var m := NextMatch(text, pos);
      && (m.Some? ==> MatchAt(text, m.value.start) == Some(m.value.end))
      && (m.Some? ==> forall j :: pos <= j < m.value.start ==> MatchAt(text, j).None?)
      && (m.None? ==> forall j :: pos <= j <= |text| ==> MatchAt(text, j).None?)
    decreases |text| - pos
  {
    if pos == |text| {
      assert MatchAt(text, pos).None?;
    } else if MatchAt(text, pos).None? {
      NextMatchIsLeftmost(text, pos + 1);
      var m := NextMatch(text, pos + 1);
      assert NextMatch(text, pos) == m;
      if m.Some? {
        assert forall j :: pos + 1 <= j < m.value.start ==> MatchAt(text, j).None?;
      } else {
        assert forall j :: pos + 1 <= j <= |text| ==> MatchAt(text, j).None?;
      }
    }
  }

  /** What a matched token becomes: its resolved address, or itself when resolution failed. */
  function Replacement(token: string, resolve: Resolver): string
  {
    match resolve(token)
    case Some(url) => url
    case None => token
  }

  /** The output for text[pos..]: the text between matches verbatim, each match replaced. */
  function Expand(text: string, pos: nat, resolve: Resolver): string
    requires pos <= |text|
    decreases |text| - pos
  {
    match NextMatch(text, pos)
    case None => text[pos..]
    case Some(m) => text[pos..m.start] + Replacement(text[m.start..m.end], resolve) + Expand(text, m.end, resolve)
  }

  /** The result resolve_redirects returns. */
  function Resolve(text: string, resolve: Resolver): string
  {
    Expand(text, 0, resolve)
  }

  /** One step of Expand: the text before the next match, its replacement, and the rest. */
  lemma ExpandStep(text: string, pos: nat, resolve: Resolver)
    requires pos <= |text| && NextMatch(text, pos).Some?
    ensures var m := NextMatch(text, pos).value;
      Expand(text, pos, resolve) == text[pos..m.start] + Replacement(text[m.start..m.end], resolve) + Expand(text, m.end, resolve)
  {
  }

  lemma RegroupResolved(r: string, a: string, b: string, u: string, e: string)
    ensures (r + (a + b) + u) + [] + e == r + a + (b + u + e)
  {
  }

  lemma RegroupFailed(r: string, a: string, b: string, c: string, e: string)
    ensures r + (a + b + c) + e == r + a + (b + c + e)
  {
  }

  /** A match whose lookup succeeded: its address joins the result and prev moves past it. */
  lemma ResolvedStep(text: string, prev: nat, pos: nat, m: Span, url: string, result: string, resolve: Resolver)
    requires prev <= pos <= |text| && NextMatch(text, pos) == Some(m)
    requires resolve(text[m.start..m.end]) == Some(url)
    ensures (result + text[prev..m.start] + url) + text[m.end..m.end] + Expand(text, m.end, resolve)
         == result + text[prev..pos] + Expand(text, pos, resolve)
  {
    ExpandStep(text, pos, resolve);
    Seqs.Split2(text, prev, pos, m.start);
    assert text[m.end..m.end] == [];
    RegroupResolved(result, text[prev..pos], text[pos..m.start], url, Expand(text, m.end, resolve));
  }

  /** A match whose lookup failed: nothing is added and prev stays, so the token is kept. */
  lemma FailedStep(text: string, prev: nat, pos: nat, m: Span, result: string, resolve: Resolver)
    requires prev <= pos <= |text| && NextMatch(text, pos) == Some(m)
    requires resolve(text[m.start..m.end]).None?
    ensures result + text[prev..m.end] + Expand(text, m.end, resolve)
         == result + text[prev..pos] + Expand(text, pos, resolve)
  {
    ExpandStep(text, pos, resolve);
    Seqs.Split3(text, prev, pos, m.start, m.end);
    RegroupFailed(result, text[prev..pos], text[pos..m.start], text[m.start..m.end], Expand(text, m.end, resolve));
  }

  /** The tail of the loop: once no match is left, appending text[prev..] completes the result. */
  lemma LoopEnd(text: string, prev: nat, pos: nat, result: string, resolve: Resolver)
    requires prev <= pos <= |text| && NextMatch(text, pos).None?
    ensures result + text[prev..] == result + text[prev..pos] + Expand(text, pos, resolve)
  {
    assert text[prev..] == text[prev..pos] + text[pos..];
  }

  /**
   * The body of resolve_redirects' loop for one match: when the lookup gives an
   * address, the text since prev and the address join the result and prev moves
   * past the match; when it fails, nothing changes and the token stays in the text.
   */
  method OnMatch(text: string, prev: nat, pos: nat, span: Span, result: string, resolve: Resolver)
    returns (result': string, prev': nat)
    requires prev <= pos <= |text| && NextMatch(text, pos) == Some(span)
    ensures resolve(text[span.start..span.end]).Some? ==>
      result' == result + text[prev..span.start] + resolve(text[span.start..span.end]).value && prev' == span.end
    ensures resolve(text[span.start..span.end]).None? ==> result' == result && prev' == prev
    ensures prev' <= span.end
    ensures result' + text[prev'..span.end] + Expand(text, span.end, resolve)
         == result + text[prev..pos] + Expand(text, pos, resolve)
  {
    var url := resolve(text[span.start..span.end]);
    if url.Some? {
      ResolvedStep(text, prev, pos, span, url.value, result, resolve);
      result' := result + text[prev..span.start] + url.value;
      prev' := span.end;
    } else {
      FailedStep(text, prev, pos, span, result, resolve);
      result', prev' := result, prev;
    }
  }

  /** resolve_redirects: the loop over the matches, building result and advancing prev. */
  method ResolveRedirects(text: string, resolve: Resolver) returns (result: string)
    ensures result == Resolve(text, resolve)
  {
    ghost var goal := Resolve(text, resolve);
    result := "";
    var prev: nat := 0;
    var pos: nat := 0;  // where finditer resumes: the end of the last match
    var m := NextMatch(text, 0);
    while m.Some?
      invariant prev <= pos <= |text|
      invariant m == NextMatch(text, pos)
      invariant result + text[prev..pos] + Expand(text, pos, resolve) == goal
      decreases |text| - pos
    {
      result, prev := OnMatch(text, prev, pos, m.value, result, resolve);
      pos := m.value.end;
      m := NextMatch(text, pos);
    }
    LoopEnd(text, prev, pos, result, resolve);
    result := result + text[prev..];
  }

  /**
   * When every match's replacement is the match itself (its resolution failed,
   * or led back to the same address), the text comes out unchanged.
   */
  lemma {:induction false} UnchangedWhenNothingResolves(text: string, pos: nat, resolve: Resolver)
    requires pos <= |text|
    requires forall i | 0 <= i <= |text| && MatchAt(text, i).Some? ::
      Replacement(text[i..MatchAt(text, i).value], resolve) == text[i..MatchAt(text, i).value]
    ensures Expand(text, pos, resolve) == text[pos..]
    decreases |text| - pos
  {
    match NextMatch(text, pos)
    case None =>
    case Some(m) =>
      NextMatchIsLeftmost(text, pos);
      UnchangedWhenNothingResolves(text, m.end, resolve);
      assert text[pos..] == text[pos..m.start] + text[m.start..m.end] + text[m.end..];
  }

  /** Text with no match is returned as it is. */
  lemma NoMatchUnchanged(text: string, resolve: Resolver)
    requires forall i | 0 <= i <= |text| :: MatchAt(text, i).None?
    ensures Resolve(text, resolve) == text
  {
    UnchangedWhenNothingResolves(text, 0, resolve);
  }

  /** Every lookup resolve_redirects makes from pos on fails: those of the matches finditer yields. */
  predicate AllLookupsFail(text: string, pos: nat, resolve: Resolver)
    requires pos <= |text|
    decreases |text| - pos
  {
    match NextMatch(text, pos)
    case None => true
    case Some(m) => resolve(text[m.start..m.end]).None? && AllLookupsFail(text, m.end, resolve)
  }

  /** From pos on, when every lookup made fails, the rest of the text is copied through. */
  lemma {:induction false} ExpandWhenLookupsFail(text: string, pos: nat, resolve: Resolver)
    requires pos <= |text| && AllLookupsFail(text, pos, resolve)
    ensures Expand(text, pos, resolve) == text[pos..]
    decreases |text| - pos
  {
    match NextMatch(text, pos)
    case None =>
    case Some(m) =>
      ExpandWhenLookupsFail(text, m.end, resolve);
      assert text[pos..] == text[pos..m.start] + text[m.start..m.end] + text[m.end..];
  }

  /** A text in which every lookup resolve_redirects makes fails is returned as it is. */
  lemma AllFailuresUnchanged(text: string, resolve: Resolver)
    requires AllLookupsFail(text, 0, resolve)
    ensures Resolve(text, resolve) == text
  {
    ExpandWhenLookupsFail(text, 0, resolve);
  }

  /** A character where no match starts is copied through. */
  lemma ExpandPlainChar(text: string, pos: nat, resolve: Resolver)
    requires pos < |text| && MatchAt(text, pos).None?
    ensures Expand(text, pos, resolve) == [text[pos]] + Expand(text, pos + 1, resolve)
  {
    assert NextMatch(text, pos) == NextMatch(text, pos + 1);
    match NextMatch(text, pos + 1)
    case None =>
      assert text[pos..] == [text[pos]] + text[pos + 1..];
    case Some(m) =>
      assert text[pos..m.start] == [text[pos]] + text[pos + 1..m.start];
  }

  /** Text that holds no match start before q is copied through up to q. */
  lemma {:induction false} ExpandSkipsPlainPrefix(text: string, pos: nat, q: nat, resolve: Resolver)
    requires pos <= q <= |text|
    requires forall j :: pos <= j < q ==> MatchAt(text, j).None?
    ensures Expand(text, pos, resolve) == text[pos..q] + Expand(text, q, resolve)
    decreases q - pos
  {
    if pos < q {
      ExpandPlainChar(text, pos, resolve);
      ExpandSkipsPlainPrefix(text, pos + 1, q, resolve);
      assert text[pos..q] == [text[pos]] + text[pos + 1..q];
      Seqs.Regroup([text[pos]], text[pos + 1..q], Expand(text, q, resolve));
    }
  }

  const ExampleText: string := "see https://t.co/abc now"

  lemma ExampleNoEarlyMatch()
    ensures forall j :: 0 <= j < 4 ==> MatchAt(ExampleText, j).None?
  {
    var text := ExampleText;
    assert text[0] == 's' && text[1] == 'e' && text[2] == 'e' && text[3] == ' ';
    forall j | 0 <= j < 4 ensures MatchAt(text, j).None? {
      assert text[j..j + 9][0] != "https://t"[0];
    }
  }

  lemma ExampleRun()
    ensures AlnumRun(ExampleText, 17) == 3
  {
    var text := ExampleText;
    assert text[17] == 'a' && text[18] == 'b' && text[19] == 'c' && text[20] == ' ';
    assert AlnumRun(text, 20) == 0;
    assert AlnumRun(text, 19) == 1;
    assert AlnumRun(text, 18) == 2;
  }

  lemma ExampleMatchAt4()
    ensures MatchAt(ExampleText, 4) == Some(20)
  {
    var text := ExampleText;
    ExampleRun();
    assert text[4] == 'h' && text[5] == 't' && text[6] == 't' && text[7] == 'p' && text[8] == 's';
    assert text[9] == ':' && text[10] == '/' && text[11] == '/' && text[12] == 't' && text[13] == '.';
    assert text[14] == 'c' && text[15] == 'o' && text[16] == '/';
  }

  lemma ExampleTail(resolve: Resolver)
    ensures Expand(ExampleText, 20, resolve) == " now"
  {
    var text := ExampleText;
    assert NextMatch(text, 24).None?;
    assert NextMatch(text, 23).None?;
    assert NextMatch(text, 22).None?;
    assert NextMatch(text, 21).None?;
    assert NextMatch(text, 20).None?;
    assert text[20] == ' ' && text[21] == 'n' && text[22] == 'o' && text[23] == 'w';
    assert text[20..] == " now";
  }

  lemma ExampleToken()
    ensures ExampleText[4..20] == "https://t.co/abc"
  {
    var text := ExampleText;
    assert text[4] == 'h' && text[5] == 't' && text[6] == 't' && text[7] == 'p' && text[8] == 's';
    assert text[9] == ':' && text[10] == '/' && text[11] == '/' && text[12] == 't' && text[13] == '.';
    assert text[14] == 'c' && text[15] == 'o' && text[16] == '/';
    assert text[17] == 'a' && text[18] == 'b' && text[19] == 'c';
  }

  lemma ExampleReplacement(resolve: Resolver)
    requires resolve("https://t.co/abc") == Some("https://example.com/page")
    ensures Expand(ExampleText, 4, resolve) == "https://example.com/page" + " now"
  {
    var text := ExampleText;
    ExampleMatchAt4();
    assert NextMatch(text, 4) == Some(Span(4, 20));
    ExpandStep(text, 4, resolve);
    ExampleToken();
    ExampleTail(resolve);
    assert text[4..4] == "";
  }

  /** The worked case: "see https://t.co/abc now" with the token resolving to a page. */
  lemma Example(resolve: Resolver)
    requires resolve("https://t.co/abc") == Some("https://example.com/page")
    ensures Resolve("see https://t.co/abc now", resolve) == "see " + "https://example.com/page" + " now"
  {
    ExampleNoEarlyMatch();
    ExpandSkipsPlainPrefix(ExampleText, 0, 4, resolve);
    ExampleReplacement(resolve);
    ExamplePrefix();
    Seqs.Regroup("see ", "https://example.com/page", " now");
  }

  lemma ExamplePrefix()
    ensures ExampleText[0..4] == "see "
  {
    var text := ExampleText;
    assert text[0] == 's' && text[1] == 'e' && text[2] == 'e' && text[3] == ' ';
  }
}
