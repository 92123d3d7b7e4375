/**
 The filtering step of the bot: keep, in their original order, exactly the
 tokens that satisfy the screening rule.
 */
module Screening {
  import opened Tokens

  /** Order-preserving filter by `Eligible`, as `tokens.filter(...)` computes it. */
  function FilterTokens(s: seq<Token>): (r: seq<Token>)
    ensures |r| <= |s|
    ensures forall i :: 0 <= i < |r| ==> Eligible(r[i])
    ensures forall t :: t in r <==> t in s && Eligible(t)
  {
    if |s| == 0 then []
    else if Eligible(s[0]) then [s[0]] + FilterTokens(s[1..])
    else FilterTokens(s[1..])
  }

  /** What the token fetch hands to the filter: the token list, or `undefined`.
      The fetch yields `undefined` when the request failed and the error was
      only logged, and also when the response carries no `tokens` field. */
  datatype Fetch = Delivered(tokens: seq<Token>) | Undefined

  /** What `filterTokens` ends with: the kept tokens, or the TypeError thrown
      by calling `.filter` on `undefined`. */
  datatype Screened = Returned(kept: seq<Token>) | Threw

  /** `filterTokens` after the fetch: a failed fetch makes it throw rather than
      return an empty list; a delivered list is screened token by token. */
  function ScreenFetched(f: Fetch): (r: Screened)
    ensures r.Threw? <==> f.Undefined?
    ensures r.Returned? ==> forall t :: t in r.kept <==> t in f.tokens && Eligible(t)
    ensures r.Returned? ==> |r.kept| <= |f.tokens|
    ensures r.Returned? ==> IsSubsequence(r.kept, f.tokens)
    ensures f.Delivered? ==> r == Returned(FilterTokens(f.tokens))
  {
    match f
    case Undefined => Threw
    case Delivered(tokens) =>
      FilterIsSubsequence(tokens);
      Returned(FilterTokens(tokens))
  }

  /** Greedy embedding check: `a` can be obtained from `b` by deleting elements. */
  predicate IsSubsequence(a: seq<Token>, b: seq<Token>)
    decreases |b|
  {
    if |a| == 0 then true
    else if |b| == 0 then false
    else if a[0] == b[0] then IsSubsequence(a[1..], b[1..])
    else IsSubsequence(a, b[1..])
  }

  /** The output is the input with some tokens deleted: nothing is added,
      changed or reordered. */
  lemma {:induction false} FilterIsSubsequence(s: seq<Token>)
    ensures IsSubsequence(FilterTokens(s), s)
  {
    if |s| > 0 {
      FilterIsSubsequence(s[1..]);
      if !Eligible(s[0]) {
        SubsequenceOfTail(FilterTokens(s[1..]), s[1..], s[0]);
      }
    }
  }

  /** A subsequence of `b` is also a subsequence of `b` with one more token in front. */
  lemma {:induction false} SubsequenceOfTail(a: seq<Token>, b: seq<Token>, x: Token)
    requires IsSubsequence(a, b)
    ensures IsSubsequence(a, [x] + b)
    decreases |b|, 1
  {
    if |a| > 0 {
      assert ([x] + b)[1..] == b;
      if a[0] == x {
        SubsequenceDropHead(a, b);
      }
    }
  }

  /** Dropping the first element of a non-empty subsequence keeps it a subsequence. */
  lemma {:induction false} SubsequenceDropHead(a: seq<Token>, b: seq<Token>)
    requires |a| > 0 && IsSubsequence(a, b)
    ensures IsSubsequence(a[1..], b)
    decreases |b|, 0
  {
    if a[0] == b[0] {
      if |a[1..]| > 0 {
        SubsequenceDropHead(a[1..], b[1..]);
        SubsequenceOfTail(a[1..], b[1..], b[0]);
        assert [b[0]] + b[1..] == b;
      }
    } else {
      SubsequenceDropHead(a, b[1..]);
      SubsequenceOfTail(a[1..], b[1..], b[0]);
      assert [b[0]] + b[1..] == b;
    }
  }

  /** Filtering distributes over concatenation, since each token is judged on its own. */
  lemma {:induction false} FilterConcat(a: seq<Token>, b: seq<Token>)
    ensures FilterTokens(a + b) == FilterTokens(a) + FilterTokens(b)
  {
    if |a| == 0 {
      assert a + b == b;
    } else {
      assert (a + b)[0] == a[0];
      assert (a + b)[1..] == a[1..] + b;
      FilterConcat(a[1..], b);
    }
  }

  /** Filtering an already filtered list changes nothing. */
  lemma {:induction false} FilterIdempotent(s: seq<Token>)
    ensures FilterTokens(FilterTokens(s)) == FilterTokens(s)
  {
    if |s| > 0 {
      FilterIdempotent(s[1..]);
    }
  }

  /** A list whose tokens are all eligible passes through unchanged, and
      conversely, the filter returns its input only when every token passes. */
  lemma {:induction false} FilterKeepsAllIffAllEligible(s: seq<Token>)
    ensures FilterTokens(s) == s <==> forall i :: 0 <= i < |s| ==> Eligible(s[i])
  {
    if |s| > 0 {
      FilterKeepsAllIffAllEligible(s[1..]);
      if !Eligible(s[0]) {
        assert |FilterTokens(s)| < |s|;
      }
      else {
        assert FilterTokens(s) == [s[0]] + FilterTokens(s[1..]);
        assert s == [s[0]] + s[1..];
        assert (forall i :: 0 <= i < |s| ==> Eligible(s[i]))
          <==> (forall i :: 0 <= i < |s[1..]| ==> Eligible(s[1..][i]));
      }
    }
  }

  /** Each token occurs in the output as often as in the input if it is
      eligible, and not at all otherwise. */
  lemma {:induction false} FilterCounts(s: seq<Token>, t: Token)
    ensures multiset(FilterTokens(s))[t] == if Eligible(t) then multiset(s)[t] else 0
  {
    if |s| > 0 {
      FilterCounts(s[1..], t);
      assert s == [s[0]] + s[1..];
      assert multiset(s) == multiset([s[0]]) + multiset(s[1..]);
    }
  }
}
