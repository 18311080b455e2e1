/**
 * The tagger object of HMM.java: the count tables filled by training, the
 * log-probability tables derived from them, and the Viterbi decoder that
 * reads the derived tables.
 */
module Tagger {
  import opened Wrappers
  import opened StringOrder
  import opened Counting
  import opened Probabilities
  import opened Lattice

  /**
   * `scores` holds the scores of `layer`, and the backpointers at position
   * `i` hold its predecessors, cell by cell.
   */
  ghost predicate Represents(scores: map<string, real>, backpointers: map<(string, nat), string>, i: nat, layer: Layer)
  {
    && scores.Keys == layer.Keys
    && forall t :: t in layer ==>
      scores[t] == layer[t].score && (t, i) in backpointers && backpointers[(t, i)] == layer[t].pred
  }

  /** `backpointers` agrees with `before` at every position other than `i`. */
  ghost predicate KeepsOthers(backpointers: map<(string, nat), string>, before: map<(string, nat), string>, i: nat)
  {
    forall key: (string, nat) :: key.1 != i ==>
      (key in backpointers <==> key in before) && (key in before ==> backpointers[key] == before[key])
  }

  /** Every cell of the first `n` layers has its predecessor recorded under its state and position. */
  ghost predicate Recorded(backpointers: map<(string, nat), string>, layers: seq<Layer>, n: nat)
    requires n <= |layers|
  {
    forall k, t {:trigger layers[k][t]} :: 0 <= k < n && t in layers[k] ==> (t, k) in backpointers && backpointers[(t, k)] == layers[k][t].pred
  }

  /** A represented layer's scores are its `ScoresOf`. */
  lemma RepresentsScores(scores: map<string, real>, backpointers: map<(string, nat), string>, i: nat, layer: Layer)
    requires Represents(scores, backpointers, i, layer)
    ensures scores == ScoresOf(layer)
  {
  }

  /** `Relax` restricted to the destinations in `done`: the state of the row loop part way through. */
  ghost function PartialRelax(acc: Layer, frontier: map<string, real>, trans: ScoreTable, emit: ScoreTable, w: string, s: string, done: set<string>): Layer
    requires Covers(trans, emit)
    requires s in frontier && s in trans && done <= trans[s].Keys
  {
    map t | t in acc.Keys + done ::
      if t in done && (t !in acc || Candidate(frontier, trans, emit, w, s, t) > acc[t].score)
      then Cell(Candidate(frontier, trans, emit, w, s, t), s)
      else acc[t]
  }

  /**
   * Relaxing one more destination `t` changes the partial layer at `t`
   * alone; before that, `t` holds the cell it had in `acc`, if any.
   */
  lemma RelaxOneFacts(acc: Layer, frontier: map<string, real>, trans: ScoreTable, emit: ScoreTable, w: string, s: string, done: set<string>, t: string)
    requires Covers(trans, emit)
    requires s in frontier && s in trans && done <= trans[s].Keys && t in trans[s] && t !in done
    ensures var before := PartialRelax(acc, frontier, trans, emit, w, s, done);
      var after := PartialRelax(acc, frontier, trans, emit, w, s, done + {t});
      var c := Candidate(frontier, trans, emit, w, s, t);
      && after.Keys == before.Keys + {t}
      && (t in before <==> t in acc)
      && (t in before ==> before[t] == acc[t])
      && after[t] == (if t !in acc || c > acc[t].score then Cell(c, s) else acc[t])
      && forall u :: u in before && u != t ==> after[u] == before[u]
  {
  }

  /** A strictly better (or first) candidate for `t` is written into the scores and the backpointers. */
  lemma RelaxOneImproves(scores: map<string, real>, backpointers: map<(string, nat), string>, i: nat,
                         acc: Layer, frontier: map<string, real>, trans: ScoreTable, emit: ScoreTable, w: string, s: string, done: set<string>, t: string)
    requires Covers(trans, emit)
    requires s in frontier && s in trans && done <= trans[s].Keys && t in trans[s] && t !in done
    requires Represents(scores, backpointers, i, PartialRelax(acc, frontier, trans, emit, w, s, done))
    requires t !in scores || Candidate(frontier, trans, emit, w, s, t) > scores[t]
    ensures Represents(scores[t := Candidate(frontier, trans, emit, w, s, t)], backpointers[(t, i) := s], i,
                       PartialRelax(acc, frontier, trans, emit, w, s, done + {t}))
  {
    RelaxOneFacts(acc, frontier, trans, emit, w, s, done, t);
  }

  /** A candidate for `t` that is not strictly better leaves everything as it was. */
  lemma RelaxOneKeeps(scores: map<string, real>, backpointers: map<(string, nat), string>, i: nat,
                      acc: Layer, frontier: map<string, real>, trans: ScoreTable, emit: ScoreTable, w: string, s: string, done: set<string>, t: string)
    requires Covers(trans, emit)
    requires s in frontier && s in trans && done <= trans[s].Keys && t in trans[s] && t !in done
    requires Represents(scores, backpointers, i, PartialRelax(acc, frontier, trans, emit, w, s, done))
    requires t in scores && Candidate(frontier, trans, emit, w, s, t) <= scores[t]
    ensures Represents(scores, backpointers, i, PartialRelax(acc, frontier, trans, emit, w, s, done + {t}))
  {
    RelaxOneFacts(acc, frontier, trans, emit, w, s, done, t);
  }

  /** Once every destination is done, the partial relaxation is `Relax`. */
  lemma PartialRelaxDone(acc: Layer, frontier: map<string, real>, trans: ScoreTable, emit: ScoreTable, w: string, s: string)
    requires Covers(trans, emit)
    requires s in frontier && s in trans
    ensures PartialRelax(acc, frontier, trans, emit, w, s, trans[s].Keys) == Relax(acc, frontier, trans, emit, w, s)
  {
  }

  /** The best state of `scores`, by the original's scan with a strict comparison. */
  method BestState(scores: map<string, real>) returns (maxState: Option<string>)
    ensures maxState == Best(scores)
  {
    var order := SortedStrings(scores.Keys);
    maxState := None;
    for j := 0 to |order|
      invariant maxState == PickBest(order[..j], scores)
    {
      var s := order[j];
      if maxState.None? || scores[s] > scores[maxState.value] {
        maxState := Some(s);
      }
      assert order[..j + 1][..j] == order[..j];
    }
    assert order[..|order|] == order;
  }

  /**
   * Every cell of the first `n` layers has its predecessor recorded under
   * its state and position, and that predecessor was reached before the
   * cell's layer.
   */
  ghost predicate Traceable(backpointers: map<(string, nat), string>, layers: seq<Layer>, n: nat)
    requires n <= |layers|
  {
    forall k, t {:trigger layers[k][t]} :: 0 <= k < n && t in layers[k] ==>
      && (t, k) in backpointers && backpointers[(t, k)] == layers[k][t].pred
      && Before(layers, k, layers[k][t].pred)
  }

  /** Recorded backpointers over a chained lattice can be traced back. */
  lemma RecordedTraceable(backpointers: map<(string, nat), string>, layers: seq<Layer>)
    requires Recorded(backpointers, layers, |layers|) && Chained(layers)
    ensures Traceable(backpointers, layers, |layers|)
  {
  }

  /** One step back along a backtrace: the state at `m - 1` is the predecessor of the state at `m`. */
  lemma BacktraceStep(backpointers: map<(string, nat), string>, layers: seq<Layer>, k: nat, t: string, m: nat)
    requires Traceable(backpointers, layers, |layers|)
    requires k < |layers| && t in layers[k]
    requires 1 <= m <= k
    ensures var q := Backtrace(layers, k, t);
      q[m] in layers[m] && q[m - 1..] == [layers[m][q[m]].pred] + q[m..]
  {
    forall j: nat, u: string {:trigger layers[j][u].pred} | j < |layers| && u in layers[j]
      ensures Before(layers, j, layers[j][u].pred)
    {
    }
    BacktraceChain(layers, k, t, m);
    var q := Backtrace(layers, k, t);
    assert q[m - 1..] == [q[m - 1]] + q[m..];
  }

  /** With no observations, the final frontier is the start state alone. */
  lemma StartAlone(trans: ScoreTable, emit: ScoreTable, obs: seq<string>)
    requires Covers(trans, emit)
    requires obs == []
    ensures FinalScores(trans, emit, obs) == map[Start := 0.0] && Start in FinalScores(trans, emit, obs)
  {
  }

  /** Backpointers recorded for every cell of the decoder's lattice can be traced back. */
  lemma LatticeTraceable(trans: ScoreTable, emit: ScoreTable, obs: seq<string>, backpointers: map<(string, nat), string>)
    requires Covers(trans, emit)
    requires Recorded(backpointers, Lattice.AllLayers(trans, emit, obs), |obs|)
    ensures Traceable(backpointers, Lattice.AllLayers(trans, emit, obs), |obs|)
  {
    LatticeLinked(trans, emit, obs);
    RecordedTraceable(backpointers, Lattice.AllLayers(trans, emit, obs));
  }

  /**
   * Rebuilds the path ending in `last` after `n` observations by following
   * the backpointers from the last position down to the second, adding each
   * predecessor at the front.
   */
  method BacktrackFrom(backpointers: map<(string, nat), string>, last: string, n: nat, ghost layers: seq<Layer>)
    returns (path: seq<string>)
    requires n == |layers| && Traceable(backpointers, layers, n)
    requires n > 0 ==> last in layers[n - 1]
    ensures path == if n == 0 then [last] else Backtrace(layers, n - 1, last)
  {
    ghost var full := if n == 0 then [] else Backtrace(layers, n - 1, last);
    path := [last];
    var i := n - 1;
    while i >= 1
      invariant n == 0 ==> i == -1 && path == [last]
      invariant n > 0 ==> 0 <= i < n && path == full[i..]
      decreases i
    {
      BacktraceStep(backpointers, layers, n - 1, last, i);
      var backpointer := backpointers[(path[0], i)];
      path := [backpointer] + path;
      i := i - 1;
    }
    if n > 0 {
      assert full[0..] == full;
    }
  }

  class HMM {
    /** Transition counts, source tag to destination tag. */
    var transitionMap: map<string, map<string, nat>>
    /** Emission counts, tag to word. */
    var observationMap: map<string, map<string, nat>>
    /** The number of transitions out of each tag. */
    var totalTransition: map<string, nat>
    /** The number of words seen under each tag. */
    var totalWords: map<string, nat>
    /** Transition log-probabilities. */
    var transitionProb: ScoreTable
    /** Emission log-probabilities. */
    var wordProb: ScoreTable

    /** The transition counts with their totals. */
    function Transitions(): Counts
      reads this
    {
      Counts(transitionMap, totalTransition)
    }

    /** The emission counts with their totals. */
    function Observations(): Counts
      reads this
    {
      Counts(observationMap, totalWords)
    }

    /** The object invariant: both count tables keep their totals equal to their row sums. */
    ghost predicate Valid()
      reads this
    {
      Conserved(Transitions()) && Conserved(Observations())
    }

    /** The decoder can look up the emission row of every transition destination. */
    ghost predicate Ready()
      reads this
    {
      Covers(transitionProb, wordProb)
    }

    constructor()
      ensures Valid() && Ready()
      ensures Transitions() == Counts(map[], map[]) && Observations() == Counts(map[], map[])
      ensures transitionProb == map[] && wordProb == map[]
    {
      transitionMap := map[];
      observationMap := map[];
      totalTransition := map[];
      totalWords := map[];
      transitionProb := map[];
      wordProb := map[];
    }

    /**
     * Counts one transition `src -> dst`: a new row, a new entry in an
     * existing row, or an increment of an existing entry, the total of
     * `src` following along.
     */
    method RecordTransition(src: string, dst: string)
      requires Valid()
      modifies this`transitionMap, this`totalTransition
      ensures Transitions() == Record(old(Transitions()), src, dst)
      ensures Valid()
    {
      RecordConserves(Transitions(), src, dst);
      assert transitionMap.Keys == totalTransition.Keys;
      var row: map<string, nat>;
      var total: nat;
      if src !in transitionMap {
        row, total := map[dst := 1], 1;
      } else if dst in transitionMap[src] {
        row := transitionMap[src];
        row, total := row[dst := row[dst] + 1], totalTransition[src] + 1;
      } else {
        row := transitionMap[src];
        row, total := row[dst := 1], totalTransition[src] + 1;
      }
      assert row == Bump(Row(Transitions(), src), dst);
      assert total == if src in totalTransition then totalTransition[src] + 1 else 1;
      transitionMap := transitionMap[src := row];
      totalTransition := totalTransition[src := total];
    }

    /** Counts one word `word` under tag `tag`, with the same three cases. */
    method RecordEmission(tag: string, word: string)
      requires Valid()
      modifies this`observationMap, this`totalWords
      ensures Observations() == Record(old(Observations()), tag, word)
      ensures Valid()
    {
      RecordConserves(Observations(), tag, word);
      assert observationMap.Keys == totalWords.Keys;
      var row: map<string, nat>;
      var total: nat;
      if tag !in observationMap {
        row, total := map[word := 1], 1;
      } else if word in observationMap[tag] {
        row := observationMap[tag];
        row, total := row[word := row[word] + 1], totalWords[tag] + 1;
      } else {
        row := observationMap[tag];
        row, total := row[word := 1], totalWords[tag] + 1;
      }
      assert row == Bump(Row(Observations(), tag), word);
      assert total == if tag in totalWords then totalWords[tag] + 1 else 1;
      observationMap := observationMap[tag := row];
      totalWords := totalWords[tag := total];
    }

    /**
     * Counts every tag of a line as a transition from the tag before it, the
     * start state before the first.
     */
    method TrainTransitions(tags: seq<string>)
      requires Valid()
      modifies this`transitionMap, this`totalTransition
      ensures Transitions() == RecordAll(old(Transitions()), LinePairs(tags))
      ensures Observations() == old(Observations())
      ensures Valid()
    {
      ghost var transitions := LinePairs(tags);
      for i := 0 to |tags|
        invariant Valid()
        invariant Transitions() == RecordAll(old(Transitions()), transitions[..i])
        invariant Observations() == old(Observations())
      {
        var currTag := if i == 0 then Start else tags[i - 1];
        var nextTag := tags[i];
        assert transitions[..i + 1][..i] == transitions[..i] && transitions[i] == (currTag, nextTag);
        assert RecordAll(old(Transitions()), transitions[..i + 1])
            == Record(RecordAll(old(Transitions()), transitions[..i]), currTag, nextTag);
        RecordTransition(currTag, nextTag);
      }
      assert transitions[..|tags|] == transitions;
    }

    /** Counts every word of a line as an emission of the tag at its index. */
    method TrainEmissions(words: seq<string>, tags: seq<string>)
      requires Valid()
      requires |words| <= |tags|
      modifies this`observationMap, this`totalWords
      ensures Observations() == RecordAll(old(Observations()), EmissionPairs(words, tags))
      ensures Transitions() == old(Transitions())
      ensures Valid()
    {
      ghost var emissions := EmissionPairs(words, tags);
      for i := 0 to |words|
        invariant Valid()
        invariant Transitions() == old(Transitions())
        invariant Observations() == RecordAll(old(Observations()), emissions[..i])
      {
        assert emissions[..i + 1][..i] == emissions[..i] && emissions[i] == (tags[i], words[i]);
        assert RecordAll(old(Observations()), emissions[..i + 1])
            == Record(RecordAll(old(Observations()), emissions[..i]), tags[i], words[i]);
        var word := words[i];
        var tag := tags[i];
        RecordEmission(tag, word);
      }
      assert emissions[..|words|] == emissions;
    }

    /**
     * Trains on one line: first its transitions, then its emissions.
     */
    method TrainLine(words: seq<string>, tags: seq<string>)
      requires Valid()
      requires |words| <= |tags|
      modifies this`transitionMap, this`totalTransition, this`observationMap, this`totalWords
      ensures Transitions() == RecordAll(old(Transitions()), LinePairs(tags))
      ensures Observations() == RecordAll(old(Observations()), EmissionPairs(words, tags))
      ensures Valid()
    {
      TrainTransitions(tags);
      TrainEmissions(words, tags);
    }

    /**
     * Trains on paired lines of words and tags until either list runs out.
     */
    method Train(sentences: seq<seq<string>>, tagLines: seq<seq<string>>)
      requires Valid()
      requires forall k :: 0 <= k < |sentences| && k < |tagLines| ==> |sentences[k]| <= |tagLines[k]|
      modifies this`transitionMap, this`totalTransition, this`observationMap, this`totalWords
      ensures var n := if |sentences| < |tagLines| then |sentences| else |tagLines|;
        && Transitions() == RecordAll(old(Transitions()), CorpusTransitions(tagLines[..n]))
        && LinesFit(sentences[..n], tagLines[..n])
        && Observations() == RecordAll(old(Observations()), CorpusEmissions(sentences[..n], tagLines[..n]))
      ensures Valid()
    {
      var k := 0;
      while k < |sentences| && k < |tagLines|
        invariant k <= |sentences| && k <= |tagLines|
        invariant Valid()
        invariant LinesFit(sentences[..k], tagLines[..k])
        invariant Transitions() == RecordAll(old(Transitions()), CorpusTransitions(tagLines[..k]))
        invariant Observations() == RecordAll(old(Observations()), CorpusEmissions(sentences[..k], tagLines[..k]))
      {
        var words := sentences[k];
        var tags := tagLines[k];
        CorpusStep(old(Transitions()), old(Observations()), sentences, tagLines, k);
        TrainLine(words, tags);
        k := k + 1;
      }
    }

    /**
     * Derives ln(count) - ln(total) for every counted transition and
     * emission, writing over the existing probability tables.
     */
    method LogProbability(ln: real -> real)
      requires Valid()
      modifies this`transitionProb, this`wordProb
      ensures transitionProb == Overlay(old(transitionProb), LogTable(Transitions(), ln))
      ensures wordProb == Overlay(old(wordProb), LogTable(Observations(), ln))
      ensures old(Ready()) && Covered(Transitions(), Observations()) ==> Ready()
    {
      transitionProb := FillLogTable(transitionMap, totalTransition, transitionProb, ln);
      wordProb := FillLogTable(observationMap, totalWords, wordProb, ln);
      if old(Ready()) && Covered(Transitions(), Observations()) {
        DerivedTablesCover(old(transitionProb), old(wordProb), Transitions(), Observations(), ln);
      }
    }
  

    /**
     * Relaxes the transition `s -> nextState` while reading `w`: the
     * destination joins the next states, and its score and its backpointer
     * at position `i` are replaced when it is new or the candidate is
     * strictly better.
     */
    method RelaxEdge(currScores: map<string, real>, s: string, nextState: string, w: string, i: nat,
                     states: set<string>, scores: map<string, real>, bp: map<(string, nat), string>,
                     ghost acc: Layer, ghost done: set<string>)
      returns (nextStates: set<string>, nextScores: map<string, real>, backpointers: map<(string, nat), string>)
      requires Ready()
      requires s in currScores && s in transitionProb
      requires done <= transitionProb[s].Keys && nextState in transitionProb[s] && nextState !in done
      requires states == scores.Keys
      requires Represents(scores, bp, i, PartialRelax(acc, currScores, transitionProb, wordProb, w, s, done))
      ensures nextStates == nextScores.Keys
      ensures Represents(nextScores, backpointers, i, PartialRelax(acc, currScores, transitionProb, wordProb, w, s, done + {nextState}))
      ensures KeepsOthers(backpointers, bp, i)
    {
      nextStates, nextScores, backpointers := states + {nextState}, scores, bp;
      var transitionScore := transitionProb[s][nextState];
      var observationScore := if w in wordProb[nextState] then wordProb[nextState][w] else UnseenScore;
      var score := currScores[s] + transitionScore + observationScore;
      assert score == Candidate(currScores, transitionProb, wordProb, w, s, nextState);
      if nextState !in nextScores || score > nextScores[nextState] {
        RelaxOneImproves(scores, bp, i, acc, currScores, transitionProb, wordProb, w, s, done, nextState);
        nextScores := nextScores[nextState := score];
        backpointers := backpointers[(nextState, i) := s];
      } else {
        RelaxOneKeeps(scores, bp, i, acc, currScores, transitionProb, wordProb, w, s, done, nextState);
      }
    }

    /**
     * Relaxes every recorded transition out of frontier state `s`, in any
     * order of its destinations.
     */
    method RelaxRow(currScores: map<string, real>, s: string, w: string, i: nat,
                    states: set<string>, scores: map<string, real>, bp: map<(string, nat), string>, ghost acc: Layer)
      returns (nextStates: set<string>, nextScores: map<string, real>, backpointers: map<(string, nat), string>)
      requires Ready()
      requires s in currScores && s in transitionProb
      requires states == scores.Keys && Represents(scores, bp, i, acc)
      ensures nextStates == nextScores.Keys
      ensures Represents(nextScores, backpointers, i, Relax(acc, currScores, transitionProb, wordProb, w, s))
      ensures KeepsOthers(backpointers, bp, i)
    {
      nextStates, nextScores, backpointers := states, scores, bp;
      var rest := transitionProb[s].Keys;
      assert transitionProb[s].Keys - rest == {};
      while rest != {}
        invariant rest <= transitionProb[s].Keys
        invariant nextStates == nextScores.Keys
        invariant Represents(nextScores, backpointers, i, PartialRelax(acc, currScores, transitionProb, wordProb, w, s, transitionProb[s].Keys - rest))
        invariant KeepsOthers(backpointers, bp, i)
        decreases rest
      {
        var nextState :| nextState in rest;
        ghost var done := transitionProb[s].Keys - rest;
        assert transitionProb[s].Keys - (rest - {nextState}) == done + {nextState};
        nextStates, nextScores, backpointers :=
          RelaxEdge(currScores, s, nextState, w, i, nextStates, nextScores, backpointers, acc, done);
        rest := rest - {nextState};
      }
      assert transitionProb[s].Keys - rest == transitionProb[s].Keys;
      PartialRelaxDone(acc, currScores, transitionProb, wordProb, w, s);
    }

    /**
     * One position of the decoder: every frontier state, in `Sorted` order,
     * relaxes its transitions into the next frontier.
     */
    method Advance(currStates: set<string>, currScores: map<string, real>, w: string, i: nat, bp: map<(string, nat), string>)
      returns (nextStates: set<string>, nextScores: map<string, real>, backpointers: map<(string, nat), string>)
      requires Ready()
      requires currStates == currScores.Keys
      ensures nextStates == nextScores.Keys
      ensures Represents(nextScores, backpointers, i, Step(currScores, transitionProb, wordProb, w))
      ensures KeepsOthers(backpointers, bp, i)
    {
      nextStates, nextScores, backpointers := {}, map[], bp;
      var order := SortedStrings(currStates);
      for j := 0 to |order|
        invariant nextStates == nextScores.Keys
        invariant Represents(nextScores, backpointers, i, StepFrom(currScores, order[..j], transitionProb, wordProb, w))
        invariant KeepsOthers(backpointers, bp, i)
      {
        var currState := order[j];
        assert order[..j + 1][..j] == order[..j];
        if currState in transitionProb {
          nextStates, nextScores, backpointers :=
            RelaxRow(currScores, currState, w, i, nextStates, nextScores, backpointers,
                     StepFrom(currScores, order[..j], transitionProb, wordProb, w));
        }
      }
      assert order[..|order|] == order;
    }

    /**
     * The forward pass of the decoder: from the start state alone, one
     * `Advance` per observation, keeping every position's backpointers.
     */
    method Forward(observations: seq<string>)
      returns (currScores: map<string, real>, backpointers: map<(string, nat), string>)
      requires Ready()
      ensures currScores == FinalScores(transitionProb, wordProb, observations)
      ensures Traceable(backpointers, Lattice.AllLayers(transitionProb, wordProb, observations), |observations|)
    {
      var currStates: set<string> := {Start};
      currScores := map[Start := 0.0];
      backpointers := map[];
      for i := 0 to |observations|
        invariant currStates == currScores.Keys
        invariant currScores == Prior(Layers(transitionProb, wordProb, observations, i), i)
        invariant Recorded(backpointers, Layers(transitionProb, wordProb, observations, i), i)
      {
        ghost var layers: seq<Layer> := Layers(transitionProb, wordProb, observations, i);
        var nextStates, nextScores, bp := Advance(currStates, currScores, observations[i], i, backpointers);
        ghost var layer := Step(currScores, transitionProb, wordProb, observations[i]);
        ghost var next: seq<Layer> := Layers(transitionProb, wordProb, observations, i + 1);
        assert next == layers + [layer];
        RepresentsScores(nextScores, bp, i, layer);
        forall k: nat, t: string | k < i + 1 && t in next[k]
          ensures (t, k) in bp && bp[(t, k)] == next[k][t].pred
        {
          if k < i {
            assert next[k] == layers[k];
          }
        }
        currStates, currScores, backpointers := nextStates, nextScores, bp;
      }
      LatticeTraceable(transitionProb, wordProb, observations, backpointers);
    }

    /** Rebuilds the decoded path from the best final state `last`. */
    method Backtrack(observations: seq<string>, backpointers: map<(string, nat), string>, last: string)
      returns (path: seq<string>)
      requires Ready()
      requires Traceable(backpointers, Lattice.AllLayers(transitionProb, wordProb, observations), |observations|)
      requires Best(FinalScores(transitionProb, wordProb, observations)) == Some(last)
      ensures Decode(transitionProb, wordProb, observations) == Some(path)
    {
      ghost var layers := Lattice.AllLayers(transitionProb, wordProb, observations);
      ghost var decoded := Decode(transitionProb, wordProb, observations);
      if observations == [] {
        StartAlone(transitionProb, wordProb, observations);
        assert last == Start && decoded == Some([Start]);
      } else {
        PriorIsBefore(layers, |observations|, last);
        assert decoded == Some(Backtrace(layers, |observations| - 1, last));
      }
      path := BacktrackFrom(backpointers, last, |observations|, layers);
      assert decoded == Some(path);
    }

    /**
     * The Viterbi decoder: the tags of the best-scoring path through the
     * lattice of `observations`, or none when no state survives to the
     * last observation.
     */
    method Viterbi(observations: seq<string>) returns (path: Option<seq<string>>)
      requires Ready()
      ensures path == Decode(transitionProb, wordProb, observations)
    {
      var currScores, backpointers := Forward(observations);
      if observations == [] {
        StartAlone(transitionProb, wordProb, observations);
      }
      var maxState := BestState(currScores);
      if maxState.None? {
        return None;
      }
      var q := Backtrack(observations, backpointers, maxState.value);
      return Some(q);
    }
  }
}
