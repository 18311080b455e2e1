/**
 * The count tables of corpus training (HMM.java, POSTraining).
 *
 * A table pairs nested counts, source -> destination -> count, with a
 * per-source total, exactly as the original keeps `transitionMap` with
 * `totalTransition` and `observationMap` with `totalWords`. Training is a
 * sequence of single increments; `RecordAll` folds them in order.
 */
module Counting {

  /** The sentinel start state that precedes the first tag of every line. */
  const Start: string := "#"

  datatype Counts = Counts(rows: map<string, map<string, nat>>, totals: map<string, nat>)

  /** The sum of the values of a row. */
  ghost function Sum(m: map<string, nat>): nat
    decreases |m|
  {
    if m == map[] then 0
    else
      var k :| k in m;
      assert |m - {k}| < |m| by { assert (m - {k}).Keys == m.Keys - {k}; }
      m[k] + Sum(m - {k})
  }

  /** Any key may be taken out first: the sum does not depend on the choice. */
  lemma {:induction false} SumRemove(m: map<string, nat>, k: string)
    requires k in m
    ensures Sum(m) == m[k] + Sum(m - {k})
    decreases |m|
  {
    var j :| j in m && Sum(m) == m[j] + Sum(m - {j});
    if j != k {
      assert (m - {j}).Keys == m.Keys - {j};
      assert (m - {k}).Keys == m.Keys - {k};
      SumRemove(m - {j}, k);
      SumRemove(m - {k}, j);
      assert m - {j} - {k} == m - {k} - {j};
    }
  }

  /** A single entry never exceeds the sum of its row. */
  lemma EntryAtMostSum(m: map<string, nat>, k: string)
    requires k in m
    ensures m[k] <= Sum(m)
  {
    SumRemove(m, k);
  }

  /** Adds one to the count of `k`; a new key starts at 1. */
  function Bump(m: map<string, nat>, k: string): map<string, nat>
  {
    m[k := if k in m then m[k] + 1 else 1]
  }

  /** Bumping any key raises the row's sum by exactly one. */
  lemma SumBump(m: map<string, nat>, k: string)
    ensures Sum(Bump(m, k)) == Sum(m) + 1
  {
    var b := Bump(m, k);
    SumRemove(b, k);
    if k in m {
      SumRemove(m, k);
      assert b - {k} == m - {k};
    } else {
      assert b - {k} == m;
    }
  }

  /** The row of `s`, empty when `s` has none yet. */
  function Row(c: Counts, s: string): map<string, nat>
  {
    if s in c.rows then c.rows[s] else map[]
  }

  /** One increment of the count of `src -> dst` together with the total of `src`. */
  function Record(c: Counts, src: string, dst: string): Counts
  {
    Counts(c.rows[src := Bump(Row(c, src), dst)], Bump(c.totals, src))
  }

  /** The increments of `ps`, applied in order. */
  function RecordAll(c: Counts, ps: seq<(string, string)>): Counts
    decreases |ps|
  {
    if ps == [] then c
    else
      var p := ps[|ps| - 1];
      Record(RecordAll(c, ps[..|ps| - 1]), p.0, p.1)
  }

  /**
   * The table invariant: each source has a total exactly when it has a row,
   * every row is non-empty with positive counts, and each total is the sum
   * of its row.
   */
  ghost predicate Conserved(c: Counts)
  {
    && c.rows.Keys == c.totals.Keys
    && forall s :: s in c.rows ==>
         && c.rows[s] != map[]
         && Sum(c.rows[s]) == c.totals[s]
         && forall t :: t in c.rows[s] ==> c.rows[s][t] > 0
  }

  /** Every branch of a single increment keeps the invariant. */
  lemma RecordConserves(c: Counts, src: string, dst: string)
    requires Conserved(c)
    ensures Conserved(Record(c, src, dst))
  {
    var r := Record(c, src, dst);
    SumBump(Row(c, src), dst);
    assert r.rows[src] == Bump(Row(c, src), dst);
  }

  lemma {:induction false} RecordAllConserves(c: Counts, ps: seq<(string, string)>)
    requires Conserved(c)
    ensures Conserved(RecordAll(c, ps))
    decreases |ps|
  {
    if ps != [] {
      var p := ps[|ps| - 1];
      RecordAllConserves(c, ps[..|ps| - 1]);
      RecordConserves(RecordAll(c, ps[..|ps| - 1]), p.0, p.1);
    }
  }

  /** The count of `s -> t`, zero when absent. */
  function Count(c: Counts, s: string, t: string): nat
  {
    if s in c.rows && t in c.rows[s] then c.rows[s][t] else 0
  }

  /** The total of `s`, zero when absent. */
  function Total(c: Counts, s: string): nat
  {
    if s in c.totals then c.totals[s] else 0
  }

  /** How many of the pairs leave `s`. */
  function SourceCount(ps: seq<(string, string)>, s: string): nat
    decreases |ps|
  {
    if ps == [] then 0
    else SourceCount(ps[..|ps| - 1], s) + (if ps[|ps| - 1].0 == s then 1 else 0)
  }

  /**
   * After the increments of `ps`, the count of every pair has grown by the
   * number of times the pair occurs in `ps`, and by nothing else.
   */
  lemma {:induction false} RecordAllCounts(c: Counts, ps: seq<(string, string)>, s: string, t: string)
    ensures Count(RecordAll(c, ps), s, t) == Count(c, s, t) + multiset(ps)[(s, t)]
    decreases |ps|
  {
    if ps != [] {
      var init := ps[..|ps| - 1];
      RecordAllCounts(c, init, s, t);
      assert ps == init + [ps[|ps| - 1]];
      assert multiset(ps) == multiset(init) + multiset{ps[|ps| - 1]};
    }
  }

  /** After the increments of `ps`, the total of every source has grown by the number of pairs leaving it. */
  lemma {:induction false} RecordAllTotals(c: Counts, ps: seq<(string, string)>, s: string)
    ensures Total(RecordAll(c, ps), s) == Total(c, s) + SourceCount(ps, s)
    decreases |ps|
  {
    if ps != [] {
      RecordAllTotals(c, ps[..|ps| - 1], s);
    }
  }

  /** A pair has an entry afterwards exactly when it had one before or occurs in `ps`. */
  lemma {:induction false} RecordAllEntries(c: Counts, ps: seq<(string, string)>, s: string, t: string)
    ensures (s in RecordAll(c, ps).rows && t in RecordAll(c, ps).rows[s])
        <==> (s in c.rows && t in c.rows[s]) || (s, t) in ps
    decreases |ps|
  {
    if ps != [] {
      var init := ps[..|ps| - 1];
      RecordAllEntries(c, init, s, t);
      assert ps == init + [ps[|ps| - 1]];
    }
  }

  /** Increments never remove a row. */
  lemma {:induction false} RecordAllKeepsRows(c: Counts, ps: seq<(string, string)>, s: string)
    requires s in c.rows
    ensures s in RecordAll(c, ps).rows
    decreases |ps|
  {
    if ps != [] {
      RecordAllKeepsRows(c, ps[..|ps| - 1], s);
    }
  }

  /**
   * The transitions of one tag line: the start state to the first tag, then
   * each tag to the next.
   */
  function LinePairs(tags: seq<string>): (ps: seq<(string, string)>)
    ensures |ps| == |tags|
  {
    seq(|tags|, i requires 0 <= i < |tags| => (if i == 0 then Start else tags[i - 1], tags[i]))
  }

  /** The emissions of one line: each word under the tag at the same index. */
  function EmissionPairs(words: seq<string>, tags: seq<string>): (ps: seq<(string, string)>)
    requires |words| <= |tags|
    ensures |ps| == |words|
  {
    seq(|words|, i requires 0 <= i < |words| => (tags[i], words[i]))
  }

  /**
   * Every destination of a transition has a row of emissions. This is what
   * keeps the decoder's emission lookup for a destination from failing.
   */
  ghost predicate Covered(transitions: Counts, emissions: Counts)
  {
    forall s, d :: s in transitions.rows && d in transitions.rows[s] ==> d in emissions.rows
  }

  /** A line whose word and tag counts agree keeps every destination covered. */
  lemma LineKeepsCoverage(transitions: Counts, emissions: Counts, words: seq<string>, tags: seq<string>)
    requires |words| == |tags|
    requires Covered(transitions, emissions)
    ensures Covered(RecordAll(transitions, LinePairs(tags)), RecordAll(emissions, EmissionPairs(words, tags)))
  {
    var t' := RecordAll(transitions, LinePairs(tags));
    var e' := RecordAll(emissions, EmissionPairs(words, tags));
    forall s, d | s in t'.rows && d in t'.rows[s] ensures d in e'.rows {
      RecordAllEntries(transitions, LinePairs(tags), s, d);
      if s in transitions.rows && d in transitions.rows[s] {
        RecordAllKeepsRows(emissions, EmissionPairs(words, tags), d);
      } else {
        var i :| 0 <= i < |tags| && LinePairs(tags)[i] == (s, d);
        RecordAllEntries(emissions, EmissionPairs(words, tags), d, words[i]);
        assert EmissionPairs(words, tags)[i] == (d, words[i]);
      }
    }
  }

  /** Increments applied in two batches amount to the increments of both, in order. */
  lemma {:induction false} RecordAllAppend(c: Counts, ps: seq<(string, string)>, qs: seq<(string, string)>)
    ensures RecordAll(c, ps + qs) == RecordAll(RecordAll(c, ps), qs)
    decreases |qs|
  {
    if qs == [] {
      assert ps + qs == ps;
    } else {
      var init := qs[..|qs| - 1];
      RecordAllAppend(c, ps, init);
      assert (ps + qs)[..|ps + qs| - 1] == ps + init;
    }
  }

  /** The transitions of a corpus of tag lines, line after line. */
  function CorpusTransitions(tagLines: seq<seq<string>>): seq<(string, string)>
    decreases |tagLines|
  {
    if tagLines == [] then []
    else CorpusTransitions(tagLines[..|tagLines| - 1]) + LinePairs(tagLines[|tagLines| - 1])
  }

  /** Paired lines, none with more words than tags. */
  predicate LinesFit(sentences: seq<seq<string>>, tagLines: seq<seq<string>>)
  {
    |sentences| == |tagLines| && forall k :: 0 <= k < |sentences| ==> |sentences[k]| <= |tagLines[k]|
  }

  /** The emissions of a corpus of paired lines, line after line. */
  function CorpusEmissions(sentences: seq<seq<string>>, tagLines: seq<seq<string>>): seq<(string, string)>
    requires LinesFit(sentences, tagLines)
    decreases |sentences|
  {
    if sentences == [] then []
    else
      var n := |sentences| - 1;
      CorpusEmissions(sentences[..n], tagLines[..n]) + EmissionPairs(sentences[n], tagLines[n])
  }

  /** A corpus whose paired lines all have as many words as tags keeps every destination covered. */
  lemma {:induction false} CorpusKeepsCoverage(
    transitions: Counts, emissions: Counts, sentences: seq<seq<string>>, tagLines: seq<seq<string>>)
    requires |sentences| == |tagLines|
    requires forall k :: 0 <= k < |sentences| ==> |sentences[k]| == |tagLines[k]|
    requires Covered(transitions, emissions)
    ensures Covered(RecordAll(transitions, CorpusTransitions(tagLines)),
                    RecordAll(emissions, CorpusEmissions(sentences, tagLines)))
    decreases |sentences|
  {
    if sentences != [] {
      var n := |sentences| - 1;
      CorpusKeepsCoverage(transitions, emissions, sentences[..n], tagLines[..n]);
      var t := RecordAll(transitions, CorpusTransitions(tagLines[..n]));
      var e := RecordAll(emissions, CorpusEmissions(sentences[..n], tagLines[..n]));
      LineKeepsCoverage(t, e, sentences[n], tagLines[n]);
      RecordAllAppend(transitions, CorpusTransitions(tagLines[..n]), LinePairs(tagLines[n]));
      RecordAllAppend(emissions, CorpusEmissions(sentences[..n], tagLines[..n]), EmissionPairs(sentences[n], tagLines[n]));
    }
  }

  /** Training one more paired line extends both corpus tallies by that line's pairs. */
  lemma CorpusStep(
    transitions: Counts, emissions: Counts, sentences: seq<seq<string>>, tagLines: seq<seq<string>>, k: nat)
    requires k < |sentences| && k < |tagLines|
    requires LinesFit(sentences[..k], tagLines[..k])
    requires |sentences[k]| <= |tagLines[k]|
    ensures LinesFit(sentences[..k + 1], tagLines[..k + 1])
    ensures RecordAll(transitions, CorpusTransitions(tagLines[..k + 1]))
        == RecordAll(RecordAll(transitions, CorpusTransitions(tagLines[..k])), LinePairs(tagLines[k]))
    ensures RecordAll(emissions, CorpusEmissions(sentences[..k + 1], tagLines[..k + 1]))
        == RecordAll(RecordAll(emissions, CorpusEmissions(sentences[..k], tagLines[..k])),
                     EmissionPairs(sentences[k], tagLines[k]))
  {
    assert tagLines[..k + 1][..k] == tagLines[..k];
    assert sentences[..k + 1][..k] == sentences[..k];
    var words, tags := sentences[..k + 1], tagLines[..k + 1];
    forall j | 0 <= j < k + 1 ensures |words[j]| <= |tags[j]| {
      if j < k {
        assert words[j] == sentences[..k][j] && tags[j] == tagLines[..k][j];
      }
    }
    RecordAllAppend(transitions, CorpusTransitions(tagLines[..k]), LinePairs(tagLines[k]));
    RecordAllAppend(emissions, CorpusEmissions(sentences[..k], tagLines[..k]), EmissionPairs(sentences[k], tagLines[k]));
  }
}
