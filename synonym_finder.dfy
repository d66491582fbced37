/** The synonym finder (model_processing_utils/synonym-finder.go): load a model
    with the strict loader, then list the words of the model whose similarity
    to a query word lies between a threshold and 1, for one query or for each
    line of a pattern file. */
module SynonymFinder {
  import opened Wrappers
  import opened Bytes
  import opened GoStrings
  import opened Word2VecFormat
  import opened Similarity
  import Model
  import StrictFormat

  /** Go's `similarity >= threshold && similarity < 1.0` on a float64: the
      threshold is inclusive, 1 is excluded, and NaN and the infinities never
      pass. */
  predicate Selected(s: Score, threshold: real) {
    match s
    case Finite(v) => threshold <= v && v < 1.0
    case PosInf => false
    case NegInf => false
    case NaN => false
  }

  /** The selection against the grep tool's `score > threshold`: a score
      equal to the threshold is selected here but does not match there, a
      score of 1 or more is never selected, and below 1 the two agree
      everywhere else. */
  lemma SelectedAgainstAbove(s: Score, threshold: real)
    ensures threshold < 1.0 ==> Selected(Finite(threshold), threshold) && !Above(Finite(threshold), threshold)
    ensures !Selected(Finite(1.0), threshold) && !Selected(PosInf, threshold)
    ensures Selected(s, threshold) <==> (Above(s, threshold) || s == Finite(threshold)) && s.Finite? && s.value < 1.0
  {
  }

  /** What `findSimilarWords` prints: the title line (with `-o`, the bare
      query), then one line per selected word (with `-o`, the bare word). A
      warning is what the pattern loop prints for a query that fails. */
  datatype Event =
    | Title(query: Word, threshold: real)
    | BareQuery(query: Word)
    | Similar(word: Word, score: Score)
    | BareWord(word: Word)
    | Warning(error: FindError)

  datatype FindError = QueryNotFound

  /** The line printed for a selected word. */
  function WordLine(word: Word, score: Score, onlyMatching: bool): Event {
    if onlyMatching then BareWord(word) else Similar(word, score)
  }

  /** The word a report line names. */
  function Named(e: Event): Option<Word> {
    match e
    case Similar(w, _) => Some(w)
    case BareWord(w) => Some(w)
    case _ => None
  }

  /** The report lines for the words in `order`, walked in that order. */
  function Report(vectors: map<Word, Vector>, queryVector: Vector, threshold: real, onlyMatching: bool,
                  cosine: (Vector, Vector) -> Score, order: seq<Word>): (r: seq<Event>)
    requires forall i :: 0 <= i < |order| ==> order[i] in vectors
    ensures forall k :: 0 <= k < |r| ==> Named(r[k]).Some?
    decreases |order|
  {
    if order == [] then []
    else
      var w := order[|order| - 1];
      var score := cosine(queryVector, vectors[w]);
      Report(vectors, queryVector, threshold, onlyMatching, cosine, order[..|order| - 1])
        + (if Selected(score, threshold) then [WordLine(w, score, onlyMatching)] else [])
  }

  /** The words a report names, in order. */
  function ReportedWords(events: seq<Event>): (r: seq<Word>)
    requires forall k :: 0 <= k < |events| ==> Named(events[k]).Some?
    ensures |r| == |events|
  {
    seq(|events|, k requires 0 <= k < |events| => Named(events[k]).value)
  }

  /** The report names exactly the words of the walk whose score is selected,
      each with its own score, in the order of the walk. */
  lemma {:induction false} ReportSelects(vectors: map<Word, Vector>, queryVector: Vector, threshold: real, onlyMatching: bool,
                                         cosine: (Vector, Vector) -> Score, order: seq<Word>)
    requires forall i :: 0 <= i < |order| ==> order[i] in vectors
    ensures var r := Report(vectors, queryVector, threshold, onlyMatching, cosine, order);
      forall w :: w in ReportedWords(r) <==> w in order && Selected(cosine(queryVector, vectors[w]), threshold)
    ensures var r := Report(vectors, queryVector, threshold, onlyMatching, cosine, order);
      forall k :: 0 <= k < |r| ==>
        && ReportedWords(r)[k] in vectors
        && r[k] == WordLine(ReportedWords(r)[k], cosine(queryVector, vectors[ReportedWords(r)[k]]), onlyMatching)
    decreases |order|
  {
    if order != [] {
      var init := order[..|order| - 1];
      var w := order[|order| - 1];
      ReportSelects(vectors, queryVector, threshold, onlyMatching, cosine, init);
      var before := Report(vectors, queryVector, threshold, onlyMatching, cosine, init);
      var r := Report(vectors, queryVector, threshold, onlyMatching, cosine, order);
      if Selected(cosine(queryVector, vectors[w]), threshold) {
        assert r == before + [WordLine(w, cosine(queryVector, vectors[w]), onlyMatching)];
        assert ReportedWords(r) == ReportedWords(before) + [w];
      } else {
        assert r == before;
      }
      assert forall u :: u in order <==> u in init || u == w;
    }
  }

  /** A walk that visits no word twice reports no word twice. */
  lemma {:induction false} ReportDistinct(vectors: map<Word, Vector>, queryVector: Vector, threshold: real, onlyMatching: bool,
                                          cosine: (Vector, Vector) -> Score, order: seq<Word>)
    requires forall i :: 0 <= i < |order| ==> order[i] in vectors
    requires forall i, j :: 0 <= i < j < |order| ==> order[i] != order[j]
    ensures var words := ReportedWords(Report(vectors, queryVector, threshold, onlyMatching, cosine, order));
      forall i, j :: 0 <= i < j < |words| ==> words[i] != words[j]
    decreases |order|
  {
    if order != [] {
      var init := order[..|order| - 1];
      var w := order[|order| - 1];
      ReportDistinct(vectors, queryVector, threshold, onlyMatching, cosine, init);
      ReportSelects(vectors, queryVector, threshold, onlyMatching, cosine, init);
      var before := Report(vectors, queryVector, threshold, onlyMatching, cosine, init);
      var r := Report(vectors, queryVector, threshold, onlyMatching, cosine, order);
      assert w !in init by {
        forall k | 0 <= k < |init| ensures init[k] != w {
          assert init[k] == order[k];
        }
      }
      if Selected(cosine(queryVector, vectors[w]), threshold) {
        assert ReportedWords(r) == ReportedWords(before) + [w];
      } else {
        assert r == before;
      }
    }
  }

  /** `findSimilarWords` on a model's vectors and size, walking the map in
      the order `order`: the query's embedding (a zero vector of the model's
      size when the query is absent); an empty one is the "query word not
      found" error, otherwise the title and the report. */
  function FindResult(vectors: map<Word, Vector>, size: int, query: Word, threshold: real, onlyMatching: bool,
                      cosine: (Vector, Vector) -> Score, order: seq<Word>): (seq<Event>, Option<FindError>)
    requires query in vectors || size >= 0
    requires forall i :: 0 <= i < |order| ==> order[i] in vectors
  {
    var queryVector := Model.GetVectorEmbedding(query, Model.Word2VecModel(vectors, size));
    if |queryVector| == 0 then ([], Some(QueryNotFound))
    else
      var title := if onlyMatching then BareQuery(query) else Title(query, threshold);
      ([title] + Report(vectors, queryVector, threshold, onlyMatching, cosine, order), None)
  }

  /** The order `findSimilarWords` walked the map in: every word once when
      the query has an embedding; none when it has not, since the function
      returns before its `range` loop. */
  ghost predicate Walked(vectors: map<Word, Vector>, size: int, query: Word, order: seq<Word>)
    requires query in vectors || size >= 0
  {
    if |Model.GetVectorEmbedding(query, Model.Word2VecModel(vectors, size))| == 0 then order == []
    else Enumerates(order, vectors)
  }

  /** Each pattern's walk, as `Walked` says. */
  ghost predicate AllWalked(vectors: map<Word, Vector>, size: int, patterns: seq<Word>, orders: seq<seq<Word>>)
    requires size >= 0
  {
    |orders| == |patterns| && forall k :: 0 <= k < |orders| ==> Walked(vectors, size, patterns[k], orders[k])
  }

  /** One more pattern's walk; the words of every walk are the map's. */
  lemma AllWalkedAppend(vectors: map<Word, Vector>, size: int, patterns: seq<Word>, orders: seq<seq<Word>>,
                        pattern: Word, order: seq<Word>)
    requires size >= 0 && AllWalked(vectors, size, patterns, orders) && Walked(vectors, size, pattern, order)
    ensures AllWalked(vectors, size, patterns + [pattern], orders + [order])
    ensures forall k, i :: 0 <= k < |orders| && 0 <= i < |orders[k]| ==> orders[k][i] in vectors
    ensures forall i :: 0 <= i < |order| ==> order[i] in vectors
  {
    forall k | 0 <= k < |orders| + 1
      ensures Walked(vectors, size, (patterns + [pattern])[k], (orders + [order])[k])
    {
      if k < |orders| {
        assert (patterns + [pattern])[k] == patterns[k] && (orders + [order])[k] == orders[k];
      }
    }
    forall k, i | 0 <= k < |orders| && 0 <= i < |orders[k]|
      ensures orders[k][i] in vectors
    {
      assert Walked(vectors, size, patterns[k], orders[k]);
      assert orders[k][i] in orders[k];
    }
    forall i | 0 <= i < |order|
      ensures order[i] in vectors
    {
      assert order[i] in order;
    }
  }

  /** For a model the strict loader loaded, the query always has an embedding
      of the model's positive size, so "query word not found" never happens. */
  lemma QueryAlwaysFound(file: Option<seq<byte>>, query: Word)
    requires StrictFormat.StrictLoad(file).Loaded?
    ensures var loaded := StrictFormat.StrictLoad(file);
      |Model.GetVectorEmbedding(query, Model.Word2VecModel(loaded.vectors, loaded.dim))| == loaded.dim > 0
  {
    StrictFormat.StrictLoadShape(file);
  }

  /** Appending one more visited word adds its line when it is selected. */
  lemma ReportAppend(vectors: map<Word, Vector>, queryVector: Vector, threshold: real, onlyMatching: bool,
                     cosine: (Vector, Vector) -> Score, order: seq<Word>, w: Word)
    requires forall i :: 0 <= i < |order| ==> order[i] in vectors
    requires w in vectors
    ensures Report(vectors, queryVector, threshold, onlyMatching, cosine, order + [w])
         == Report(vectors, queryVector, threshold, onlyMatching, cosine, order)
            + (if Selected(cosine(queryVector, vectors[w]), threshold)
               then [WordLine(w, cosine(queryVector, vectors[w]), onlyMatching)] else [])
  {
    assert (order + [w])[..|order|] == order;
  }

  /** `findSimilarWords`: `order` is the order the `range` loop walked the map in. */
  method FindSimilarWords(model: StrictFormat.VecModel32bit, query: Word, threshold: real, onlyMatching: bool,
                          cosine: (Vector, Vector) -> Score)
    returns (events: seq<Event>, err: Option<FindError>, ghost order: seq<Word>)
    requires query in model.vectors || model.size >= 0
    ensures Walked(model.vectors, model.size, query, order)
    ensures (events, err) == FindResult(model.vectors, model.size, query, threshold, onlyMatching, cosine, order)
  {
    var queryVector := model.GetEmbedding(query);
    if |queryVector| == 0 {
      return [], Some(QueryNotFound), [];
    }
    var title := if onlyMatching then BareQuery(query) else Title(query, threshold);
    var report;
    report, order := WalkReport(model.vectors, queryVector, threshold, onlyMatching, cosine);
    return [title] + report, None, order;
  }

  /** The `range` loop of `findSimilarWords`: every word of the map, in map
      iteration order, scored against the query; the selected ones printed. */
  method WalkReport(vectors: map<Word, Vector>, queryVector: Vector, threshold: real, onlyMatching: bool,
                    cosine: (Vector, Vector) -> Score)
    returns (report: seq<Event>, ghost order: seq<Word>)
    ensures Enumerates(order, vectors)
    ensures report == Report(vectors, queryVector, threshold, onlyMatching, cosine, order)
  {
    report, order := [], [];
    var remaining := vectors.Keys;
    while remaining != {}
      invariant remaining <= vectors.Keys
      invariant forall w :: w in remaining ==> w !in order
      invariant forall i, j :: 0 <= i < j < |order| ==> order[i] != order[j]
      invariant forall w :: w in vectors <==> w in order || w in remaining
      invariant report == Report(vectors, queryVector, threshold, onlyMatching, cosine, order)
      decreases |remaining|
    {
      var word :| word in remaining;
      var similarity := cosine(queryVector, vectors[word]);
      ReportAppend(vectors, queryVector, threshold, onlyMatching, cosine, order, word);
      if Selected(similarity, threshold) {
        report := report + [WordLine(word, similarity, onlyMatching)];
      }
      order := order + [word];
      remaining := remaining - {word};
    }
  }

  /** The patterns of a pattern file: each line trimmed, blank ones skipped. */
  function Patterns(lines: seq<seq<byte>>): (r: seq<Word>)
    ensures |r| <= |lines|
  {
    if lines == [] then []
    else
      var pattern := TrimSpace(lines[|lines| - 1]);
      Patterns(lines[..|lines| - 1]) + (if pattern == [] then [] else [pattern])
  }

  /** One more line gives one more pattern unless it is blank. */
  lemma PatternsStep(lines: seq<seq<byte>>, i: nat)
    requires i < |lines|
    ensures Patterns(lines[..i + 1])
         == Patterns(lines[..i]) + (if TrimSpace(lines[i]) == [] then [] else [TrimSpace(lines[i])])
  {
    assert lines[..i + 1][..i] == lines[..i];
  }

  /** Every pattern is non-empty and has no white space at either end, and
      every line that is not blank gives one. */
  lemma {:induction false} PatternsAreTrimmed(lines: seq<seq<byte>>)
    ensures forall k :: 0 <= k < |Patterns(lines)| ==>
      Patterns(lines)[k] != [] && TrimSpace(Patterns(lines)[k]) == Patterns(lines)[k]
    ensures |Patterns(lines)| == |NonBlank(lines)|
    decreases |lines|
  {
    if lines != [] {
      var init := lines[..|lines| - 1];
      PatternsAreTrimmed(init);
      var pattern := TrimSpace(lines[|lines| - 1]);
      TrimSpaceTrims(lines[|lines| - 1]);
      TrimSpaceOfTrimmed(pattern);
      assert NonBlank(lines) == NonBlank(init) + (if pattern == [] then [] else [|lines| - 1]);
    }
  }

  /** The indices of the lines that are not blank. */
  function NonBlank(lines: seq<seq<byte>>): seq<nat>
  {
    if lines == [] then []
    else NonBlank(lines[..|lines| - 1]) + (if TrimSpace(lines[|lines| - 1]) == [] then [] else [|lines| - 1])
  }

  /** What the pattern loop prints for one pattern: the output of
      `findSimilarWords`, then a warning if it failed. */
  function PatternOutput(vectors: map<Word, Vector>, size: int, pattern: Word, threshold: real, onlyMatching: bool,
                         cosine: (Vector, Vector) -> Score, order: seq<Word>): seq<Event>
    requires size >= 0
    requires forall i :: 0 <= i < |order| ==> order[i] in vectors
  {
    var (events, err) := FindResult(vectors, size, pattern, threshold, onlyMatching, cosine, order);
    events + (if err.Some? then [Warning(err.value)] else [])
  }

  /** What the pattern loop prints, walking the map in the order `orders`
      gives for each pattern: each pattern's output in turn, going on to the
      next pattern whether or not one failed. */
  function PatternEvents(vectors: map<Word, Vector>, size: int, patterns: seq<Word>, threshold: real, onlyMatching: bool,
                         cosine: (Vector, Vector) -> Score, orders: seq<seq<Word>>): seq<Event>
    requires size >= 0 && |orders| == |patterns|
    requires forall k, i :: 0 <= k < |orders| && 0 <= i < |orders[k]| ==> orders[k][i] in vectors
  {
    if patterns == [] then []
    else
      var n := |patterns| - 1;
      PatternEvents(vectors, size, patterns[..n], threshold, onlyMatching, cosine, orders[..n])
        + PatternOutput(vectors, size, patterns[n], threshold, onlyMatching, cosine, orders[n])
  }

  /** For a model the strict loader loaded, the pattern loop never warns: its
      output is the title and the report of each pattern, one after another. */
  lemma {:induction false} PatternsNeverWarn(vectors: map<Word, Vector>, size: int, patterns: seq<Word>, threshold: real,
                                             onlyMatching: bool, cosine: (Vector, Vector) -> Score, orders: seq<seq<Word>>)
    requires size > 0 && |orders| == |patterns|
    requires forall w :: w in vectors ==> |vectors[w]| == size
    requires forall k, i :: 0 <= k < |orders| && 0 <= i < |orders[k]| ==> orders[k][i] in vectors
    ensures forall e :: e in PatternEvents(vectors, size, patterns, threshold, onlyMatching, cosine, orders) ==> !e.Warning?
    decreases |patterns|
  {
    if patterns != [] {
      var n := |patterns| - 1;
      PatternsNeverWarn(vectors, size, patterns[..n], threshold, onlyMatching, cosine, orders[..n]);
      var queryVector := Model.GetVectorEmbedding(patterns[n], Model.Word2VecModel(vectors, size));
      assert |queryVector| == size;
      var out := PatternOutput(vectors, size, patterns[n], threshold, onlyMatching, cosine, orders[n]);
      var title := if onlyMatching then BareQuery(patterns[n]) else Title(patterns[n], threshold);
      var report := Report(vectors, queryVector, threshold, onlyMatching, cosine, orders[n]);
      assert out == [title] + report;
      assert forall e :: e in report ==> Named(e).Some?;
    }
  }

  /** Why `findSimilarWordsForPatterns` fails: the pattern file does not open. */
  datatype PatternError = PatternFileUnreadable

  /** `findSimilarWordsForPatterns`: `patternFile` is the file's lines as the
      scanner yields them (`None`: it does not open); `orders` are the orders
      the map was walked in, one per pattern. */
  method FindSimilarWordsForPatterns(model: StrictFormat.VecModel32bit, patternFile: Option<seq<seq<byte>>>,
                                     threshold: real, onlyMatching: bool, cosine: (Vector, Vector) -> Score)
    returns (events: seq<Event>, err: Option<PatternError>, ghost orders: seq<seq<Word>>)
    requires model.size >= 0
    ensures patternFile.None? ==> events == [] && err == Some(PatternFileUnreadable)
    ensures patternFile.Some? ==>
      && err.None? && |orders| == |Patterns(patternFile.value)|
      && AllWalked(model.vectors, model.size, Patterns(patternFile.value), orders)
      && events == PatternEvents(model.vectors, model.size, Patterns(patternFile.value), threshold, onlyMatching, cosine, orders)
  {
    orders := [];
    if patternFile.None? {
      return [], Some(PatternFileUnreadable), orders;
    }
    var lines := patternFile.value;
    ghost var vectors, size := model.vectors, model.size;
    ghost var patterns: seq<Word> := [];
    events := [];
    var i := 0;
    while i < |lines|
      invariant 0 <= i <= |lines|
      invariant patterns == Patterns(lines[..i]) && |orders| == |patterns|
      invariant AllWalked(vectors, size, patterns, orders)
      invariant events == PatternEvents(vectors, size, patterns, threshold, onlyMatching, cosine, orders)
    {
      PatternsStep(lines, i);
      var pattern := TrimSpace(lines[i]);
      if pattern == [] {
        i := i + 1;
        continue;
      }
      var output, order := AnswerPattern(model, pattern, threshold, onlyMatching, cosine);
      AllWalkedAppend(vectors, size, patterns, orders, pattern, order);
      PatternEventsAppend(vectors, size, patterns, pattern, threshold, onlyMatching, cosine, orders, order);
      events := events + output;
      orders := orders + [order];
      patterns := patterns + [pattern];
      i := i + 1;
    }
    assert lines[..i] == lines;
    return events, None, orders;
  }

  /** One turn of the pattern loop: `findSimilarWords`, and the warning
      printed when it fails. */
  method AnswerPattern(model: StrictFormat.VecModel32bit, pattern: Word, threshold: real, onlyMatching: bool,
                       cosine: (Vector, Vector) -> Score)
    returns (output: seq<Event>, ghost order: seq<Word>)
    requires model.size >= 0
    ensures Walked(model.vectors, model.size, pattern, order)
    ensures output == PatternOutput(model.vectors, model.size, pattern, threshold, onlyMatching, cosine, order)
  {
    var found, failed;
    found, failed, order := FindSimilarWords(model, pattern, threshold, onlyMatching, cosine);
    output := found;
    if failed.Some? {
      output := output + [Warning(failed.value)];
    }
  }

  /** One more pattern appends its output to the output so far. */
  lemma PatternEventsAppend(vectors: map<Word, Vector>, size: int, patterns: seq<Word>, pattern: Word, threshold: real,
                            onlyMatching: bool, cosine: (Vector, Vector) -> Score, orders: seq<seq<Word>>, order: seq<Word>)
    requires size >= 0 && |orders| == |patterns|
    requires forall k, i :: 0 <= k < |orders| && 0 <= i < |orders[k]| ==> orders[k][i] in vectors
    requires forall i :: 0 <= i < |order| ==> order[i] in vectors
    ensures forall k, i :: 0 <= k < |orders + [order]| && 0 <= i < |(orders + [order])[k]| ==> (orders + [order])[k][i] in vectors
    ensures PatternEvents(vectors, size, patterns + [pattern], threshold, onlyMatching, cosine, orders + [order])
         == PatternEvents(vectors, size, patterns, threshold, onlyMatching, cosine, orders)
            + PatternOutput(vectors, size, pattern, threshold, onlyMatching, cosine, order)
  {
    assert (patterns + [pattern])[..|patterns|] == patterns;
    assert (orders + [order])[..|orders|] == orders;
  }
}
