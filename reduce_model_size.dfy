/** The dimension-reduction tool
    (model_processing_utils/reduce-model-size/PCA-dimension-reduction.go):
    load a model with the strict loader, project its vectors onto the first
    principal components, and save the projected vectors in the same binary
    format. */
module ReduceModelSize {
  import opened Wrappers
  import opened Bytes
  import opened Word2VecFormat
  import StrictFormat
  import Model

  /** Why `ReduceDimensions` fails. `ProjectionPanics` stands for the run-time
      panic of the matrix library when `targetDim` is not a usable number of
      columns (zero, negative, or more than the components found). */
  datatype ReduceError = NothingToReduce | PcaFailed | ProjectionPanics

  /** Why `SaveReducedModel` fails: the output file cannot be created. */
  datatype SaveError = CreateFailed

  /** What the principal component analysis yields: how many component
      directions it found, and the projection of each word's vector onto them
      (`proj.At(i, j)` for the row `i` of that word, as a float32). */
  datatype Components = Components(count: nat, project: (Word, nat) -> Float32)

  /** The reduced vector of `word`: the first `targetDim` coordinates of its projection. */
  function Projection(project: (Word, nat) -> Float32, word: Word, targetDim: nat): (v: Vector)
    ensures |v| == targetDim
  {
    seq(targetDim, j requires 0 <= j < targetDim => project(word, j))
  }

  /** The map `ReduceDimensions` builds: every word of the model, with the
      first `targetDim` coordinates of its projection. */
  function Reduced(vectors: map<Word, Vector>, targetDim: nat, project: (Word, nat) -> Float32): (r: map<Word, Vector>)
    ensures r.Keys == vectors.Keys
    ensures forall w :: w in r ==> |r[w]| == targetDim
  {
    map w | w in vectors :: Projection(project, w, targetDim)
  }

  /** Writing one more record appends its bytes. */
  lemma {:induction false} EncodeRecordsAppend(entries: seq<(Word, Vector)>, w: Word, v: Vector)
    ensures EncodeRecords(entries + [(w, v)]) == EncodeRecords(entries) + EncodeRecord(w, v)
    decreases |entries|
  {
    if entries == [] {
      assert [(w, v)][1..] == [];
    } else {
      assert (entries + [(w, v)])[1..] == entries[1..] + [(w, v)];
      EncodeRecordsAppend(entries[1..], w, v);
    }
  }

  /** One more float written appends its four bytes. */
  lemma EncodeVectorAppend(v: Vector, f: Float32)
    ensures EncodeVector(v + [f]) == EncodeVector(v) + [f.b0, f.b1, f.b2, f.b3]
  {
    var a, b := EncodeVector(v + [f]), EncodeVector(v) + [f.b0, f.b1, f.b2, f.b3];
    forall i | 0 <= i < |a| ensures a[i] == b[i] {
      EncodeVectorAt(v + [f], i / 4, i % 4);
      if i < 4 * |v| {
        EncodeVectorAt(v, i / 4, i % 4);
      }
    }
  }

  /** The loop of `binary.Write` calls, one float at a time. */
  method WriteVector(v: Vector) returns (bytes: seq<byte>)
    ensures bytes == EncodeVector(v)
  {
    bytes := [];
    var k := 0;
    while k < |v|
      invariant 0 <= k <= |v|
      invariant bytes == EncodeVector(v[..k])
    {
      var f := v[k];
      EncodeVectorAppend(v[..k], f);
      assert v[..k + 1] == v[..k] + [f];
      bytes := bytes + [f.b0, f.b1, f.b2, f.b3];
      k := k + 1;
    }
    assert v[..k] == v;
  }

  /** The saved file of a non-empty reduced model whose vectors share one
      positive length and whose words are plain loads back, with the strict
      loader, as exactly that model, in whatever order it was written. */
  lemma SavedLoadsStrictly(m: map<Word, Vector>, order: seq<Word>, dim: nat)
    requires Enumerates(order, m)
    requires 0 < |m| <= MAX_INT && 0 < dim <= MAX_INT
    requires forall w :: w in m ==> PlainWord(w) && |m[w]| == dim
    ensures StrictFormat.StrictLoad(Some(FormatHeader(|m|, dim) + EncodeRecords(MapEntries(m, order))))
         == StrictFormat.Loaded(dim, m, None)
  {
    var entries := MapEntries(m, order);
    EnumerationLength(order, m);
    assert forall k :: 0 <= k < |entries| ==> entries[k].0 in m;
    StrictFormat.StrictLoadOfWritten(FormatHeader(|m|, dim) + EncodeRecords(entries), entries, dim);
    StoreEnumeration(m, order);
  }

  /** The same file loads back as the same model with the lenient loader of
      the grep tool, and so it does whatever bytes are appended to it: that
      loader never looks past the last record. */
  lemma SavedLoadsLeniently(m: map<Word, Vector>, order: seq<Word>, dim: nat, extra: seq<byte>)
    requires Enumerates(order, m)
    requires 0 < |m| <= MAX_INT && 0 < dim <= MAX_INT
    requires forall w :: w in m ==> PlainWord(w) && |m[w]| == dim
    ensures Model.LenientLoad(Some(FormatHeader(|m|, dim) + EncodeRecords(MapEntries(m, order)) + extra))
         == Ok(Model.Word2VecModel(m, dim))
  {
    var entries := MapEntries(m, order);
    var header := FormatHeader(|m|, dim);
    var s := header + EncodeRecords(entries) + extra;
    EnumerationLength(order, m);
    assert forall k :: 0 <= k < |entries| ==> entries[k].0 in m;
    assert s == header + (EncodeRecords(entries) + extra);
    StrictFormat.BytesAtConcat(s, header, EncodeRecords(entries) + extra);
    BytesAtSplit(s, |header|, EncodeRecords(entries), extra);
    ScanHeaderOfFormat(s, |m|, dim);
    RecordsAtOfBytes(s, |header|, entries);
    Model.LenientRecordsOfWritten(s, |header|, entries, dim);
    StoreEnumeration(m, order);
    LenientLoadOfScanned(s, |m|, dim, |header|, m);
  }

  /** With the strict loader, by contrast, any byte appended to a saved file
      is an error, although every record is still read and kept. */
  lemma SavedWithTrailingBytesRejected(m: map<Word, Vector>, order: seq<Word>, dim: nat, extra: seq<byte>)
    requires Enumerates(order, m)
    requires 0 < |m| <= MAX_INT && 0 < dim <= MAX_INT
    requires forall w :: w in m ==> PlainWord(w) && |m[w]| == dim
    requires extra != []
    ensures StrictFormat.StrictLoad(Some(FormatHeader(|m|, dim) + EncodeRecords(MapEntries(m, order)) + extra))
         == StrictFormat.Loaded(dim, m, Some(StrictFormat.TrailingData))
  {
    var entries := MapEntries(m, order);
    var header := FormatHeader(|m|, dim);
    var s := header + EncodeRecords(entries) + extra;
    EnumerationLength(order, m);
    assert forall k :: 0 <= k < |entries| ==> entries[k].0 in m;
    assert s == header + (EncodeRecords(entries) + extra);
    StrictFormat.BytesAtConcat(s, header, EncodeRecords(entries) + extra);
    BytesAtSplit(s, |header|, EncodeRecords(entries), extra);
    ScanHeaderOfFormat(s, |m|, dim);
    RecordsAtOfBytes(s, |header|, entries);
    StrictFormat.StrictRecordsOfWritten(s, |header|, entries, dim, map[]);
    StoreEnumeration(m, order);
  }

  /** The tool end to end: the vectors of a loaded model, reduced to a
      positive `targetDim`, are saved in a file that loads back as exactly the
      reduced vectors. Loaded words are always plain, and reduced vectors all
      have length `targetDim`, so nothing more is needed. */
  lemma ReducedModelLoadsBack(file: Option<seq<byte>>, targetDim: nat, project: (Word, nat) -> Float32, order: seq<Word>)
    requires StrictFormat.StrictLoad(file).Loaded?
    requires 0 < targetDim <= MAX_INT && 0 < |StrictFormat.StrictLoad(file).vectors| <= MAX_INT
    requires Enumerates(order, Reduced(StrictFormat.StrictLoad(file).vectors, targetDim, project))
    ensures var reduced := Reduced(StrictFormat.StrictLoad(file).vectors, targetDim, project);
      StrictFormat.StrictLoad(Some(FormatHeader(|reduced|, targetDim) + EncodeRecords(MapEntries(reduced, order))))
        == StrictFormat.Loaded(targetDim, reduced, None)
  {
    var vectors := StrictFormat.StrictLoad(file).vectors;
    var reduced := Reduced(vectors, targetDim, project);
    StrictFormat.StrictLoadShape(file);
    assert |reduced| == |vectors| by { assert reduced.Keys == vectors.Keys; }
    SavedLoadsStrictly(reduced, order, targetDim);
  }

  /** The lenient loader's outcome once the header and the records are known. */
  lemma LenientLoadOfScanned(s: seq<byte>, vocab: nat, dim: nat, pos: nat, vectors: map<Word, Vector>)
    requires pos <= |s|
    requires ScanHeader(s) == Header(vocab, dim, true, pos)
    requires Model.LenientRecords(s, pos, vocab, dim, map[]) == Ok(vectors)
    ensures Model.LenientLoad(Some(s)) == Ok(Model.Word2VecModel(vectors, dim))
  {
  }

  /** `VecModel32bit` of the dimension-reduction tool. */
  class VecModel32bit {
    var vectors: map<Word, Vector>
    var vectorsReduced: map<Word, Vector>
    var size: int

    /** `VecModel32bit{}`: no vectors, no reduced vectors, size 0. */
    constructor ()
      ensures vectors == map[] && vectorsReduced == map[] && size == 0
    {
      vectors := map[];
      vectorsReduced := map[];
      size := 0;
    }

    /** `LoadModel`, the strict loader: a rejected header leaves the model as
        it was; otherwise the model takes the header's dimension and whatever
        records were read. The reduced vectors are not touched. */
    method LoadModel(file: Option<seq<byte>>) returns (err: Option<StrictFormat.LoadError>)
      modifies this
      ensures err == StrictFormat.StrictLoad(file).Failed()
      ensures StrictFormat.StrictLoad(file).Rejected? ==> vectors == old(vectors) && size == old(size)
      ensures StrictFormat.StrictLoad(file).Loaded? ==>
        vectors == StrictFormat.StrictLoad(file).vectors && size == StrictFormat.StrictLoad(file).dim
      ensures vectorsReduced == old(vectorsReduced)
    {
      var outcome := StrictFormat.Load(file);
      if outcome.Rejected? {
        return Some(outcome.reason);
      }
      vectors := outcome.vectors;
      size := outcome.dim;
      return outcome.error;
    }

    /** `ReduceDimensions`: an empty model, or one of size 100 or less, is
        refused whatever `targetDim` is; then the analysis `pca` runs (the
        projection is taken as given) and, when it succeeds and `targetDim`
        is a usable number of columns, the reduced vectors are replaced by
        the projection of every word onto the first `targetDim` components. */
    method ReduceDimensions(targetDim: int, pca: map<Word, Vector> -> Option<Components>) returns (err: Option<ReduceError>)
      modifies this
      ensures vectors == old(vectors) && size == old(size)
      ensures |vectors| == 0 || size <= 100 ==>
        err == Some(NothingToReduce) && vectorsReduced == old(vectorsReduced)
      ensures |vectors| > 0 && size > 100 && pca(vectors).None? ==>
        err == Some(PcaFailed) && vectorsReduced == old(vectorsReduced)
      ensures |vectors| > 0 && size > 100 && pca(vectors).Some? && !(0 < targetDim <= pca(vectors).value.count) ==>
        err == Some(ProjectionPanics) && vectorsReduced == old(vectorsReduced)
      ensures |vectors| > 0 && size > 100 && pca(vectors).Some? && 0 < targetDim <= pca(vectors).value.count ==>
        err == None && vectorsReduced == Reduced(vectors, targetDim, pca(vectors).value.project)
    {
      if |vectors| == 0 || size <= 100 {
        return Some(NothingToReduce);
      }
      var words := CollectWords(vectors);
      var components := pca(vectors);
      if components.None? {
        return Some(PcaFailed);
      }
      if !(0 < targetDim <= components.value.count) {
        return Some(ProjectionPanics);
      }
      var reduced := ProjectAll(words, targetDim, components.value.project);
      assert reduced == Reduced(vectors, targetDim, components.value.project);
      vectorsReduced := reduced;
      return None;
    }

    /** `SaveReducedModel`: the header gives the number of reduced vectors and
        the length of the one met first (0 for an empty map), then each word
        follows in map order with a space, its floats and a newline.
        `canCreate` is whether `os.Create` succeeds; `order` is the order the
        map was walked in and `first` the word the header's length was taken
        from. */
    method SaveReducedModel(canCreate: bool) returns (out: seq<byte>, err: Option<SaveError>, ghost order: seq<Word>, ghost first: Word)
      ensures !canCreate ==> out == [] && err == Some(CreateFailed)
      ensures canCreate ==> err == None && Enumerates(order, vectorsReduced)
      ensures canCreate && |vectorsReduced| == 0 ==> out == FormatHeader(0, 0)
      ensures canCreate && |vectorsReduced| > 0 ==>
        && first in vectorsReduced
        && out == FormatHeader(|vectorsReduced|, |vectorsReduced[first]|) + EncodeRecords(MapEntries(vectorsReduced, order))
    {
      order, first := [], [];
      if !canCreate {
        return [], Some(CreateFailed), order, first;
      }
      var reducedSize := 0;
      if |vectorsReduced| > 0 {
        var word :| word in vectorsReduced;
        reducedSize := |vectorsReduced[word]|;
        first := word;
      }
      out := FormatHeader(|vectorsReduced|, reducedSize);
      var body;
      body, order := WriteRecords(vectorsReduced);
      out := out + body;
      err := None;
    }
  }

  /** The words of the map, in map iteration order (the `words` slice). */
  method CollectWords(m: map<Word, Vector>) returns (words: seq<Word>)
    ensures forall w :: w in m <==> w in words
  {
    words := [];
    var remaining := m.Keys;
    while remaining != {}
      invariant remaining <= m.Keys
      invariant forall w :: w in m <==> w in words || w in remaining
      decreases |remaining|
    {
      var w :| w in remaining;
      words := words + [w];
      remaining := remaining - {w};
    }
  }

  /** The loop that fills `VectorsReduced`: for each word, a new vector of
      `targetDim` floats read off the projection one by one. */
  method ProjectAll(words: seq<Word>, targetDim: nat, project: (Word, nat) -> Float32) returns (reduced: map<Word, Vector>)
    ensures reduced == map w | w in words :: Projection(project, w, targetDim)
  {
    reduced := map[];
    var i := 0;
    while i < |words|
      invariant 0 <= i <= |words|
      invariant reduced == map w | w in words[..i] :: Projection(project, w, targetDim)
    {
      var word := words[i];
      var reducedVector := ProjectWord(word, targetDim, project);
      assert words[..i + 1] == words[..i] + [word];
      reduced := reduced[word := reducedVector];
      i := i + 1;
    }
    assert words[..i] == words;
  }

  /** `reducedVector[j] = float32(proj.At(i, j))` for every column `j`. */
  method ProjectWord(word: Word, targetDim: nat, project: (Word, nat) -> Float32) returns (v: Vector)
    ensures v == Projection(project, word, targetDim)
  {
    v := [];
    var j := 0;
    while j < targetDim
      invariant 0 <= j <= targetDim
      invariant v == Projection(project, word, j)
    {
      v := v + [project(word, j)];
      j := j + 1;
    }
  }

  /** Writing the record of one more word appends its bytes to the records
      written so far. */
  lemma WriteRecordsStep(m: map<Word, Vector>, order: seq<Word>, w: Word)
    requires forall i :: 0 <= i < |order| ==> order[i] in m
    requires w in m
    ensures EncodeRecords(MapEntries(m, order + [w]))
         == EncodeRecords(MapEntries(m, order)) + (w + [SPACE]) + EncodeVector(m[w]) + [NEWLINE]
  {
    EncodeRecordsAppend(MapEntries(m, order), w, m[w]);
    assert MapEntries(m, order + [w]) == MapEntries(m, order) + [(w, m[w])];
  }

  /** The records loop of `SaveReducedModel`: each entry, in map iteration
      order, as its word, a space, its floats and a newline. */
  method WriteRecords(m: map<Word, Vector>) returns (body: seq<byte>, ghost order: seq<Word>)
    ensures Enumerates(order, m)
    ensures body == EncodeRecords(MapEntries(m, order))
  {
    body, order := [], [];
    var remaining := m.Keys;
    while remaining != {}
      invariant remaining <= m.Keys
      invariant forall w :: w in remaining ==> w !in order
      invariant forall i, j :: 0 <= i < j < |order| ==> order[i] != order[j]
      invariant forall w :: w in m <==> w in order || w in remaining
      invariant body == EncodeRecords(MapEntries(m, order))
      decreases |remaining|
    {
      var w :| w in remaining;
      var vector := WriteVector(m[w]);
      WriteRecordsStep(m, order, w);
      body := body + (w + [SPACE]) + vector + [NEWLINE];
      order := order + [w];
      remaining := remaining - {w};
    }
  }
}
