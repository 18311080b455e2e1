/**
 * The accuracy count of HMM.java (comparePerformance): how many gold tags
 * the predicted tag list reproduces index by index.
 */
module Evaluation {

  /** The number of indices below `n` at which the gold and the predicted tags agree. */
  function MatchCount(gold: seq<string>, predicted: seq<string>, n: nat): (r: nat)
    requires n <= |gold| && n <= |predicted|
    ensures r <= n
    ensures r == n <==> forall i :: 0 <= i < n ==> gold[i] == predicted[i]
    decreases n
  {
    if n == 0 then 0
    else MatchCount(gold, predicted, n - 1) + (if gold[n - 1] == predicted[n - 1] then 1 else 0)
  }

  /** The indices below `n` at which the gold and the predicted tags agree. */
  ghost function MatchIndices(gold: seq<string>, predicted: seq<string>, n: nat): set<nat>
    requires n <= |gold| && n <= |predicted|
  {
    set i: nat | i < n && gold[i] == predicted[i]
  }

  /** The count is the number of agreeing indices. */
  lemma {:induction false} MatchCountIsCardinality(gold: seq<string>, predicted: seq<string>, n: nat)
    requires n <= |gold| && n <= |predicted|
    ensures MatchCount(gold, predicted, n) == |MatchIndices(gold, predicted, n)|
    decreases n
  {
    if n > 0 {
      MatchCountIsCardinality(gold, predicted, n - 1);
      var before := MatchIndices(gold, predicted, n - 1);
      if gold[n - 1] == predicted[n - 1] {
        assert MatchIndices(gold, predicted, n) == before + {n - 1};
      } else {
        assert MatchIndices(gold, predicted, n) == before;
      }
    }
  }

  /** No agreeing index exactly when the count is zero. */
  lemma {:induction false} MatchCountZero(gold: seq<string>, predicted: seq<string>, n: nat)
    requires n <= |gold| && n <= |predicted|
    ensures MatchCount(gold, predicted, n) == 0 <==> forall i :: 0 <= i < n ==> gold[i] != predicted[i]
    decreases n
  {
    if n > 0 {
      MatchCountZero(gold, predicted, n - 1);
    }
  }

  /**
   * Compares the gold tags with the predicted ones index by index over the
   * gold list, and reports the matching, the incorrect and the total count.
   */
  method ComparePerformance(originalTags: seq<string>, viterbiTags: seq<string>)
    returns (matching: nat, incorrect: nat, total: nat)
    requires |originalTags| <= |viterbiTags|
    ensures total == |originalTags|
    ensures matching == |MatchIndices(originalTags, viterbiTags, total)|
    ensures 0 <= matching <= total && incorrect == total - matching
    ensures matching == total <==> viterbiTags[..total] == originalTags
  {
    total := |originalTags|;
    matching := 0;
    for i := 0 to total
      invariant matching == MatchCount(originalTags, viterbiTags, i)
    {
      if originalTags[i] == viterbiTags[i] {
        matching := matching + 1;
      }
    }
    incorrect := total - matching;
    MatchCountIsCardinality(originalTags, viterbiTags, total);
    if matching == total {
      assert viterbiTags[..total] == originalTags;
    }
  }
}
