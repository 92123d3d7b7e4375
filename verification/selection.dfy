/**
 An index-based description of the filter, independent of its recursive
 definition: the output is the input read at a strictly increasing list of
 positions, and those positions are exactly the eligible ones.
 */
module Selection {
  import opened Tokens
  import opened Screening

  /** `idx` lists, in increasing order and each once, exactly the positions of
      `s` that hold an eligible token. */
  ghost predicate EligiblePositions(s: seq<Token>, idx: seq<int>) {
    && (forall a, b :: 0 <= a < b < |idx| ==> idx[a] < idx[b])
    && (forall k :: 0 <= k < |idx| ==> 0 <= idx[k] < |s|)
    && (forall i :: 0 <= i < |s| ==> (i in idx <==> Eligible(s[i])))
  }

  /** The tokens of `s` at the positions `idx`, in that order. The ensures
      only spell out the comprehension, for use by the proofs below; they are
      not a property of the bot. */
  function Gather(s: seq<Token>, idx: seq<int>): (r: seq<Token>)
    requires forall k :: 0 <= k < |idx| ==> 0 <= idx[k] < |s|
    ensures |r| == |idx|
    ensures forall k :: 0 <= k < |idx| ==> r[k] == s[idx[k]]
  {
    seq(|idx|, k requires 0 <= k < |idx| => s[idx[k]])
  }

  /** One left-to-right pass over the tokens, recording the position of each
      token that passes the rule; reading the input back at those positions
      gives the filter's output. */
  method KeptPositions(s: seq<Token>) returns (idx: seq<int>)
    ensures EligiblePositions(s, idx)
    ensures Gather(s, idx) == FilterTokens(s)
  {
    idx := [];
    var i := 0;
    while i < |s|
      invariant 0 <= i <= |s|
      invariant forall a, b :: 0 <= a < b < |idx| ==> idx[a] < idx[b]
      invariant forall k :: 0 <= k < |idx| ==> 0 <= idx[k] < i
      invariant forall j :: 0 <= j < i ==> (j in idx <==> Eligible(s[j]))
    {
      if Eligible(s[i]) {
        idx := idx + [i];
      }
      i := i + 1;
    }
    SelectionIsFilter(s, idx);
  }

  /** The filter's output is the only order-preserving selection of exactly
      the eligible tokens: any such selection equals it. */
  lemma {:induction false} SelectionIsFilter(s: seq<Token>, idx: seq<int>)
    requires EligiblePositions(s, idx)
    ensures Gather(s, idx) == FilterTokens(s)
  {
    if |s| > 0 {
      var skip := if Eligible(s[0]) then 1 else 0;
      if skip == 1 {
        FirstPositionIsHead(s, idx);
      }
      var shifted := seq(|idx| - skip, j requires 0 <= j < |idx| - skip => idx[j + skip] - 1);
      ShiftedPositions(s, idx, shifted, skip);
      SelectionIsFilter(s[1..], shifted);
      GatherShifted(s, idx, shifted, skip);
    }
  }

  /** When the first token is eligible, the first kept position is 0. */
  lemma FirstPositionIsHead(s: seq<Token>, idx: seq<int>)
    requires |s| > 0 && EligiblePositions(s, idx) && Eligible(s[0])
    ensures |idx| > 0 && idx[0] == 0
  {
  }

  /** Reading `s` at `idx` is the head (when kept) followed by reading the
      tail at the shifted positions. */
  lemma GatherShifted(s: seq<Token>, idx: seq<int>, shifted: seq<int>, skip: int)
    requires |s| > 0
    requires forall k :: 0 <= k < |idx| ==> 0 <= idx[k] < |s|
    requires forall k :: 0 <= k < |shifted| ==> 0 <= shifted[k] < |s| - 1
    requires skip == 0 || skip == 1
    requires skip == 1 ==> |idx| > 0 && idx[0] == 0
    requires |shifted| == |idx| - skip
    requires forall j :: 0 <= j < |shifted| ==> shifted[j] == idx[j + skip] - 1
    ensures Gather(s, idx) == (if skip == 1 then [s[0]] else []) + Gather(s[1..], shifted)
  {
  }

  /** Dropping the first `skip` positions (the head's, if it was kept) and
      shifting the rest down by one gives the positions for the tail. */
  lemma ShiftedPositions(s: seq<Token>, idx: seq<int>, shifted: seq<int>, skip: int)
    requires |s| > 0 && EligiblePositions(s, idx)
    requires skip == (if Eligible(s[0]) then 1 else 0)
    requires skip == 1 ==> |idx| > 0 && idx[0] == 0
    requires skip == 0 ==> 0 !in idx
    requires |shifted| == |idx| - skip
    requires forall j :: 0 <= j < |shifted| ==> shifted[j] == idx[j + skip] - 1
    ensures EligiblePositions(s[1..], shifted)
  {
    forall j | 0 <= j < |shifted|
      ensures 0 <= shifted[j] < |s| - 1
    {
      if skip == 1 {
        assert idx[0] < idx[j + 1];
      } else {
        assert idx[j] != 0;
      }
    }
    forall i | 0 <= i < |s| - 1
      ensures i in shifted <==> Eligible(s[1..][i])
    {
      if i + 1 in idx {
        var k :| 0 <= k < |idx| && idx[k] == i + 1;
        if skip == 1 {
          assert k != 0;
          assert shifted[k - 1] == i;
        } else {
          assert shifted[k] == i;
        }
      }
      if i in shifted {
        var j :| 0 <= j < |shifted| && shifted[j] == i;
        assert idx[j + skip] == i + 1;
      }
    }
  }
}
