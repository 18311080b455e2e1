# A verified model of a bigram HMM part-of-speech tagger

This project models the core of `HMM.java`, a bigram Hidden Markov Model part-of-speech tagger, in Dafny. It has four pieces:

- **Training** (`POSTraining`).
  - Every aligned pair of a word line and a tag line updates two nested count tables: transitions (tag to next tag) and emissions (tag to word).
  - Each table keeps a per-tag total beside it.
  - The sentinel start state `"#"` is the source of every line's first tag.
- **Probability derivation** (`logProbability`). Every count becomes `ln(count) - ln(total)`, merged into the existing probability tables.
- **Viterbi decoding** (`Viterbi`).
  - A sparse lattice search starts from the frontier `{"#" -> 0}`.
  - It extends only along recorded transitions and keeps the best score and a backpointer per destination and position.
  - It then picks the best final state and follows the backpointers back.
- **Evaluation** (the counting loop of `comparePerformance`). This counts the positions at which the predicted tags equal the gold tags.

The tagger object is the class `Tagger.HMM` (`hmm.dfy`). Its fields are the six tables of the original, as Dafny maps. Its methods change them in place:

- `RecordTransition` and `RecordEmission` are the three update branches of one count.
- `TrainTransitions`, `TrainEmissions`, `TrainLine` and `Train` are the training loops.
- `LogProbability` is the derivation.
- `Viterbi` is the decoder. It is split into `RelaxEdge` (one transition), `RelaxRow` (the inner loop), `Advance` (one position), `Forward` (the lattice), `BestState` (the final scan) and `Backtrack`/`BacktrackFrom` (the backtrace).

Each method is proved against a specification function in a value-level module:

- `Counting` (`counting.dfy`): `Record`, `RecordAll`, `LinePairs`, `EmissionPairs`, the corpus functions, and the invariant that every total is the sum of its row.
- `Probabilities` (`probabilities.dfy`): `LogTable` and `Overlay`.
- `Lattice` (`lattice.dfy`): `Step`, `Layers`, `Best`, `Backtrace`, and `Decode`, with proofs that the decoded path is valid and optimal.
- `Evaluation` (`evaluation.dfy`): the match count.
- `StringOrder` (`string_order.dfy`): the fixed enumeration order that replaces hash order.
- `Keys` (`keys.dfy`): the original's string backpointer keys, for the finding below.

Decisions taken where the original leaves freedom or fails:

- **Hash order.**
  - Where the original iterates a `HashSet` or `HashMap` and the order decides ties, the model fixes lexicographic order. This covers the frontier states at HMM.java:238 and the final scan at HMM.java:273.
  - With the original's strict `>`, the first maximiser seen wins, so the model's backpointers and final state are the lexicographically least maximisers. `Lattice.BestIsLeastMaximiser` and `Lattice.PredIsLeastMaximiser` prove this.
  - The order of a row's destinations does not matter, because each destination appears once. `RelaxRow` takes them in any order.
- **Empty input.** With no observations the decoder returns the one-state path `["#"]`, as the original does.
- **Dead end.** When no state survives to the last observation, the decoder returns `None`. The original instead returns a list that ends in `""`. Its other entries are whatever the string keys happen to find: usually `null`, but a tag made only of digits can collide with the key (see Findings).
- **Backpointer keys.** The model keys backpointers by the pair (tag, position). The original's string key can collide; see Findings.

## Model

| member | source | states |
|---|---|---|
| Counting.Bump | HMM.java:59-68 | one more occurrence of a key: its count goes up by one, or starts at 1 when the key is new, the other keys keeping theirs |
| Counting.Record | HMM.java:46-97 | counting one pair (source, destination): the destination's count in the source's row and the source's total each go up by one, the row being created with a count of 1 when the source is new |
| Counting.RecordAll | HMM.java:43-126 | the count tables after the pairs of a sequence are counted one after the other, in order |
| Counting.SumBump | HMM.java:59-68 | adding one to a tag's count (a new entry starting at 1) raises the row's sum by exactly one |
| Counting.EntryAtMostSum | HMM.java:148-150 | no single count exceeds its row's sum, so no count exceeds its total |
| Counting.RecordConserves | HMM.java:48-97 | every branch of one transition or emission count keeps each total equal to the sum of its row, with the same key sets |
| Counting.RecordAllConserves | HMM.java:43-126 | a whole sequence of counts keeps every total equal to the sum of its row |
| Counting.RecordAllCounts | HMM.java:43-126 | after a sequence of counts, the count of (s, t) has grown by exactly the number of occurrences of (s, t) |
| Counting.RecordAllTotals | HMM.java:53-95 | after a sequence of counts, the total of s has grown by exactly the number of pairs leaving s |
| Counting.RecordAllEntries | HMM.java:43-126 | a pair has an entry afterwards exactly when it had one before or was counted |
| Counting.RecordAllKeepsRows | HMM.java:43-126 | counting never removes a row |
| Counting.LinePairs | HMM.java:43-98 | one transition per tag, from the start state for the first tag and from the tag before for each later one |
| Counting.EmissionPairs | HMM.java:101-104 | one emission per word, under the tag at the same index |
| Counting.CorpusTransitions | HMM.java:37-99 | the transition pairs of a whole corpus: each line's pairs, line after line |
| Counting.CorpusEmissions | HMM.java:37-126 | the (tag, word) pairs of a whole corpus, taken from paired lines in turn |
| Counting.LineKeepsCoverage | HMM.java:101-126 | a line with as many words as tags keeps every transition destination a key of the emission table |
| Counting.RecordAllAppend | HMM.java:37 | training two batches of lines in turn is training their concatenation |
| Counting.CorpusKeepsCoverage | HMM.java:37-127 | a corpus whose lines all have as many words as tags keeps every destination covered |
| Counting.CorpusStep | HMM.java:37-127 | one more paired line extends the corpus tallies by that line's transitions and emissions |
| Tagger.HMM.constructor | HMM.java:12-19 | all six tables start empty; the invariant and the coverage condition hold |
| Tagger.HMM.RecordTransition | HMM.java:46-97 | the transition table becomes `Record` of the old one: a new row, a new entry at 1, or an increment, the total following along; conservation holds |
| Tagger.HMM.RecordEmission | HMM.java:103-125 | the emission table becomes `Record` of the old one with the same three cases; conservation holds |
| Tagger.HMM.TrainTransitions | HMM.java:43-99 | the transition table has counted exactly the line's transitions in order; emissions are unchanged |
| Tagger.HMM.TrainEmissions | HMM.java:101-126 | the emission table has counted exactly each word under its tag in order; transitions are unchanged |
| Tagger.HMM.TrainLine | HMM.java:39-126 | one line counts its transitions, then its emissions; conservation holds |
| Tagger.HMM.Train | HMM.java:29-129 | reading stops at the shorter of the two line lists, and the tables have counted the corpus of those lines |
| Probabilities.LogRow | HMM.java:143-150 | the derived row of one source: ln(count) − ln(total) for each counted destination, and no other entry |
| Probabilities.LogTable | HMM.java:138-150 | the derived rows of every counted source, each with that source's total |
| Probabilities.Overlay | HMM.java:152-161 | derived rows written over the existing table: a derived entry replaces the old one, destinations not derived keep their old scores, and sources not derived keep their old rows |
| Probabilities.FillRow | HMM.java:143-163 | one source's row gets ln(count) - ln(total) for every counted destination, and other entries are kept |
| Probabilities.FillLogTable | HMM.java:138-165 | the table becomes the old table with every counted row's log-probabilities written over it |
| Probabilities.OverlayLogTableEntries | HMM.java:152-161 | a table holding the merged row for each counted source and the old row elsewhere is the overlay |
| Probabilities.LogTableNonPositive | HMM.java:150 | with a monotone logarithm and conserved counts, every derived log-probability is at most 0 |
| Probabilities.DerivedTablesCover | HMM.java:135-196 | when every transition destination has an emission row, the derived tables keep that coverage, so the lookup at line 250 has a row |
| Tagger.HMM.LogProbability | HMM.java:135-196 | both probability tables become the old ones overlaid with the log-probabilities of the counts; coverage carries over |
| StringOrder.SortedStrings | HMM.java:238 | enumerates a set of tags in the fixed lexicographic order |
| StringOrder.SortedCovers | HMM.java:238 | the enumeration visits every state of the set |
| StringOrder.SortedAscending | HMM.java:238 | the enumeration is strictly ascending, so it visits each state once |
| Lattice.Emission | HMM.java:250 | the emission score of a word under a tag, `UnseenScore` (−100) when the tag's row has no entry for the word |
| Lattice.Candidate | HMM.java:253 | the score of reaching a destination from a frontier state: the state's score plus the transition score plus the emission score |
| Lattice.Relax | HMM.java:243-260 | relaxing every transition out of one frontier state: a destination's cell becomes (candidate, state) when the destination is new or the candidate is strictly greater, and other cells stay |
| Lattice.StepFrom | HMM.java:238-262 | the next layer built by relaxing the frontier states in the given order, starting from an empty layer |
| Lattice.Step | HMM.java:238-262 | the next layer, with the frontier states visited in lexicographic order |
| Lattice.Prior | HMM.java:226-267 | the scores before a layer: {"#" ↦ 0} before the first, and the scores of the previous layer after that |
| Lattice.PickBest | HMM.java:270-280 | the scan finds a state exactly when there is one to scan, and the state it finds is among those scanned |
| Lattice.PickBestIsMax | HMM.java:273-279 | no scanned state scores more than the one picked |
| Lattice.PickBestIsFirst | HMM.java:275 | with the strict comparison, a state that ties the picked one comes no earlier |
| Lattice.Best | HMM.java:270-280 | the state the final scan picks: a state of the frontier when there is one, none for an empty frontier |
| Lattice.BestIsMax | HMM.java:270-280 | no final state scores more than the best state |
| Lattice.BestIsLeastMaximiser | HMM.java:270-280 | among states that tie for the best final score, the best state is the lexicographically least |
| Tagger.BestState | HMM.java:270-280 | the final scan returns `Best` of the scores, and none for an empty frontier |
| Lattice.StepFromCell | HMM.java:243-260 | every cell of a layer names a visited predecessor with a recorded transition, and holds its candidate score |
| Lattice.StepFromBound | HMM.java:245-258 | every recorded transition out of a visited state reaches a cell, which is at least its candidate score |
| Lattice.StepFromFirst | HMM.java:256-259 | a cell's predecessor comes no later than any state whose candidate ties the cell's score |
| Lattice.PredInFrontier | HMM.java:238-259 | every backpointer names a frontier state with a recorded transition to the cell |
| Lattice.PredIsLeastMaximiser | HMM.java:238-262 | among frontier states whose candidate ties a cell's score, the cell's backpointer is the lexicographically least |
| Lattice.Layers | HMM.java:233-268 | one layer per position read |
| Lattice.AllLayers | HMM.java:233-268 | the whole lattice of an observation sequence, one layer per observation |
| Lattice.FinalScores | HMM.java:233-268 | the scores left after the last observation, which the final scan reads |
| Lattice.LayerIsStep | HMM.java:233-268 | every layer is the step from the scores of the layer before it, starting from `{"#" -> 0}` |
| Lattice.PriorIsBefore | HMM.java:226-229 | the frontier before a position holds exactly the states reached before it, with their scores |
| Lattice.LatticeLinkedAt | HMM.java:253-259 | a cell of the lattice holds its predecessor's score plus the transition and emission scores |
| Lattice.LatticeLinked | HMM.java:253-259 | every cell of the lattice is linked to its predecessor that way |
| Lattice.LatticeCompleteAt | HMM.java:243-258 | a recorded transition out of a reached state reaches a cell at least as good as the candidate |
| Lattice.LatticeComplete | HMM.java:238-262 | every recorded transition out of every reached state is accounted for by the next layer |
| Lattice.PathScoreSnoc | HMM.java:253 | extending a valid path adds the transition and the emission score, with the unseen-word fallback |
| Lattice.PathBound | HMM.java:233-268 | every valid path ends in a reached state and scores at most that state's lattice score |
| Lattice.Backtrace | HMM.java:282-289 | the backtrace from position k has k + 1 states and ends in the state it starts from |
| Lattice.BacktraceFacts | HMM.java:282-289 | in a linked lattice the backtrace is a valid path scoring exactly its final cell's score |
| Lattice.BacktraceChain | HMM.java:285-289 | each state of a backtrace has a cell, and the state before it is that cell's predecessor |
| Lattice.Decode | HMM.java:224-292 | the path the tagger returns: `["#"]` for no observations, none when nothing survives to the last observation, otherwise the backtrace from the best final state |
| Lattice.DecodeIsPath | HMM.java:224-292 | a decoded path tags every observation and follows recorded transitions from the start state |
| Lattice.FinalBound | HMM.java:270-280 | every valid path over all observations ends in a final state, at most that state's final score |
| Lattice.DecodeIsOptimal | HMM.java:224-292 | no valid path over all the observations scores more than the decoded one |
| Lattice.DecodeFailsIffNoPath | HMM.java:224-292 | decoding fails exactly when no valid path covers all the observations |
| Tagger.RepresentsScores | HMM.java:266-267 | the decoder's score map is the score part of the layer it represents |
| Tagger.RelaxOneFacts | HMM.java:255-260 | relaxing one more destination changes the partial layer at that destination alone |
| Tagger.RelaxOneImproves | HMM.java:256-259 | a new or strictly better candidate is written to both the score and the backpointer at (state, position) |
| Tagger.RelaxOneKeeps | HMM.java:256 | a candidate that is not strictly better changes nothing |
| Tagger.PartialRelaxDone | HMM.java:243-262 | once every destination of a row is relaxed, the result is `Relax` whatever the order |
| Tagger.HMM.RelaxEdge | HMM.java:245-260 | one transition: the destination joins the next states, and score and backpointer are replaced only for a new or strictly better candidate; other positions' backpointers are kept |
| Tagger.HMM.RelaxRow | HMM.java:243-262 | a row's destinations in any order give `Relax` of the layer so far |
| Tagger.HMM.Advance | HMM.java:235-267 | one position builds exactly `Step` of the frontier: next states equal the scored states, and backpointers at this position match the cells |
| Tagger.HMM.Forward | HMM.java:226-268 | the final frontier is `FinalScores`, and every cell's backpointer is recorded under (state, position) |
| Tagger.RecordedTraceable | HMM.java:259 | recorded backpointers over a chained lattice point to states reached before each cell |
| Tagger.LatticeTraceable | HMM.java:259 | the backpointers recorded by the forward pass can be traced back |
| Tagger.BacktraceStep | HMM.java:287-288 | one step back reads the predecessor of the state at the later position |
| Tagger.StartAlone | HMM.java:226-229 | with no observations the final frontier is the start state alone, at score 0 |
| Tagger.BacktrackFrom | HMM.java:282-289 | following backpointers from the last position to the second rebuilds `Backtrace` of the lattice |
| Tagger.HMM.Backtrack | HMM.java:282-291 | from the best final state the path built is the decoded one |
| Tagger.HMM.Viterbi | HMM.java:224-292 | the decoder returns `Decode`, which is valid and optimal by the lemmas above; `["#"]` for no observations and none for a dead end |
| Evaluation.MatchCount | HMM.java:317-323 | the count is at most the number of positions, and equals it exactly when every position agrees |
| Evaluation.MatchCountIsCardinality | HMM.java:317-323 | the count is the number of agreeing positions |
| Evaluation.MatchCountZero | HMM.java:317-323 | the count is zero exactly when no position agrees |
| Evaluation.ComparePerformance | HMM.java:314-326 | matching is the number of agreeing positions over the gold list, between 0 and total; incorrect is total minus matching; all match exactly when the prediction starts with the gold list |
| Keys.Decimal | HMM.java:259 | the decimal notation of a position is non-empty and made of digits |
| Keys.StringKey | HMM.java:259 | the string key starts with the state's name and is longer than it |
| Keys.StringKeyCollides | HMM.java:259 | two different (state, position) cells share one string key |
| Keys.StringKeyLosesBackpointer | HMM.java:259 | the later of two colliding writes replaces the earlier backpointer, so the lookup at line 287 reads the wrong predecessor |

## Left out

- File and console I/O is not modelled: reading the corpus files, `viterbiFileReading`, console testing, printing and `main`. Training and evaluation take the lines and tokens as sequences.
- Splitting lines on spaces and `toLowerCase` are not modelled. Words are given already split and lowercased.
- `Math.log` becomes a parameter `ln: real -> real` of `LogProbability`. Non-positivity of the derived scores assumes `ln` is monotone on the positive reals.
- Doubles become exact reals. Rounding, infinities and NaN are not modelled.
- Counts are unbounded naturals. The original's `Integer` counts would wrap after 2^31 - 1 occurrences.
- Hash iteration order is replaced by lexicographic order where it decides ties (see above).
- Tagger.HMM.TrainLine: requires no more words than tags. The original throws an index error at HMM.java:104 for a longer word line. The same holds for Tagger.HMM.TrainEmissions and Tagger.HMM.Train.
- Tagger.HMM.Viterbi: requires every transition destination to have an emission row (`Ready`), so the model excludes such tables altogether. The original fails only when the lattice relaxes a transition into such a destination: the emission lookup at HMM.java:250 runs inside the loops at HMM.java:238-243, so a table whose uncovered transition leaves a state never reached still decodes there. Training on lines with as many words as tags keeps the stronger condition (`Counting.CorpusKeepsCoverage`, `Probabilities.DerivedTablesCover`).
- Evaluation.ComparePerformance: requires the predicted list to be at least as long as the gold list. The original throws an `IndexOutOfBoundsException` at HMM.java:319 (`viterbiTags.get(i)`) when the prediction is shorter.
- Tagger.HMM.Viterbi: a dead end gives `None`. The original returns a list that ends in `""`, and its other entries are whatever the string keys happen to find: usually `null`, but a tag made only of digits, such as `"1"` at position 0, makes the key `"10"` of position 10 read that tag's predecessor `"#"`.
- Tagger.HMM.Viterbi: the `-infinity` start of the final scan (HMM.java:270) is modelled as the absence of a best state.
- The `nextStates` set of the original is kept beside the scores and proved equal to their key set.

## Findings

| source | as written | input that shows it | evidently intended | confidence | as-written member | corrected member |
|---|---|---|---|---|---|---|
| HMM.java:259, 287 | backpointers are keyed by the string `nextState + i` | tags `"NN1"` and `"NN"`, a sentence of at least 12 words with `"NN1"` reached at position 1 and `"NN"` at position 11 with different predecessors: both use key `"NN11"`, so the backtrace through `"NN1"` at position 1 reads `"NN"`'s predecessor at 11 | key backpointers by the pair (state, position) | high that the keys collide; not executed | Keys.StringKeyLosesBackpointer | Tagger.BacktrackFrom |
