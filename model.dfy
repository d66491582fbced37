/** The word2vec model used by the grep tool (modules/model/model.go): a lenient
    loader that ignores a malformed header, and the embedding lookup. */
module Model {
  import opened Wrappers
  import opened Bytes
  import opened Word2VecFormat

  /** `Word2VecModel`: the vectors by word and the dimension from the header. */
  datatype Word2VecModel = Word2VecModel(vectors: map<Word, Vector>, size: int)

  /** Why loading stops. `NegativeLength` stands for the run-time panic of
      `make([]float32, vectorSize)` with a negative size. */
  datatype LoadError = OpenFailed | WordMissing | VectorTruncated | NegativeLength

  /** The number of times `for i := 0; i < n; i++` runs. */
  function Count(n: int): nat
  {
    if n < 0 then 0 else n
  }

  /** The outcome of reading one record. */
  datatype RecordStep = Record(word: Word, vector: Vector, next: nat) | Failure(error: LoadError)

  /** One pass of the records loop at index `pos`: a word read up to and
      including the next space and trimmed, then `dim` floats. A negative
      dimension panics once the word has been read. */
  function LenientRecord(s: seq<byte>, pos: nat, dim: int): (r: RecordStep)
    requires pos <= |s|
    ensures r.Record? ==> pos < r.next <= |s| && |r.vector| == dim
  {
    match ReadWord(s, pos)
    case None => Failure(WordMissing)
    case Some(w) =>
      if dim < 0 then Failure(NegativeLength)
      else
        match ReadVector(s, w.next, dim)
        case None => Failure(VectorTruncated)
        case Some(v) => Record(w.value, v.value, v.next)
  }

  /** The records loop from index `pos`, with `count` records still to read,
      storing into the map built so far. */
  function LenientRecords(s: seq<byte>, pos: nat, count: nat, dim: int, acc: map<Word, Vector>)
    : Result<map<Word, Vector>, LoadError>
    requires pos <= |s|
    decreases count
  {
    if count == 0 then Ok(acc)
    else
      match LenientRecord(s, pos, dim)
      case Failure(e) => Err(e)
      case Record(w, v, next) => LenientRecords(s, next, count - 1, dim, acc[w := v])
  }

  /** One turn of the records loop: a failed record ends the loop with its
      error, a read record is stored and the loop goes on after it. */
  lemma LenientRecordsStep(s: seq<byte>, pos: nat, count: nat, dim: int, acc: map<Word, Vector>, step: RecordStep)
    requires pos <= |s| && count > 0 && step == LenientRecord(s, pos, dim)
    ensures LenientRecords(s, pos, count, dim, acc) ==
      if step.Failure? then Err(step.error)
      else LenientRecords(s, step.next, count - 1, dim, acc[step.word := step.vector])
  {
  }

  /** A record that fails to load ends the loop with its error. */
  lemma LenientRecordsFail(s: seq<byte>, pos: nat, count: nat, dim: int, acc: map<Word, Vector>, e: LoadError)
    requires pos <= |s| && count > 0
    requires LenientRecord(s, pos, dim) == Failure(e)
    ensures LenientRecords(s, pos, count, dim, acc) == Err(e)
  {
  }

  /** A record that loads is stored, and the loop's outcome is that of the
      records after it. */
  lemma LenientRecordsAdvance(s: seq<byte>, pos: nat, count: nat, dim: int, acc: map<Word, Vector>,
                              w: Word, v: Vector, next: nat, result: Result<map<Word, Vector>, LoadError>)
    requires pos <= |s| && count > 0
    requires LenientRecord(s, pos, dim) == Record(w, v, next)
    requires LenientRecords(s, pos, count, dim, acc) == result
    ensures next <= |s| && LenientRecords(s, next, count - 1, dim, acc[w := v]) == result
  {
  }

  /** `LoadWord2VecModel` as a function of the file's bytes (`None`: the file
      does not open). Whatever `Fscanf` assigned before a header error is used
      as it stands, and reading goes on from where the scan stopped. */
  function LenientLoad(file: Option<seq<byte>>): (r: Result<Word2VecModel, LoadError>)
    ensures file.None? ==> r == Err(OpenFailed)
    ensures r.Ok? ==> r.value.size == ScanHeader(file.value).dim
    ensures r.Ok? && r.value.size < 0 ==> r.value.vectors == map[]
  {
    match file
    case None => Err(OpenFailed)
    case Some(s) =>
      var h := ScanHeader(s);
      match LenientRecords(s, h.next, Count(h.vocab), h.dim, map[])
      case Err(e) => Err(e)
      case Ok(vectors) => Ok(Word2VecModel(vectors, h.dim))
  }

  /** What makes the loader lenient: a header whose vocabulary size does not
      scan is no error. No record is read and the model is empty, with size 0. */
  lemma LenientLoadOfUnreadableHeader(s: seq<byte>)
    requires ScanInt(s, 0).Failed?
    ensures LenientLoad(Some(s)) == Ok(Word2VecModel(map[], 0))
  {
  }

  /** A header whose vocabulary size scans but whose dimension does not is
      no error either: the vocabulary size is kept, the dimension is 0, and
      that many records of no components are read. */
  lemma LenientLoadOfUnreadableDimension(s: seq<byte>, v: int, p: nat)
    requires ScanInt(s, 0) == Scanned(v, p)
    requires MatchSpace(s, p).Failed? || ScanInt(s, MatchSpace(s, p).Next()).Failed?
    ensures ScanHeader(s).vocab == v && ScanHeader(s).dim == 0
    ensures LenientLoad(Some(s)).Ok? ==> LenientLoad(Some(s)).value.size == 0
  {
  }

  /** A loaded model holds only plain words, and each vector has as many
      components as the header's dimension. */
  lemma LenientLoadShape(file: Option<seq<byte>>)
    requires LenientLoad(file).Ok?
    ensures forall w :: w in LenientLoad(file).value.vectors ==>
      PlainWord(w) && |LenientLoad(file).value.vectors[w]| == LenientLoad(file).value.size
  {
    var s := file.value;
    var h := ScanHeader(s);
    LenientRecordsShape(s, h.next, Count(h.vocab), h.dim, map[]);
  }

  /** The records loop only stores plain words with `dim` components. */
  lemma {:induction false} LenientRecordsShape(s: seq<byte>, pos: nat, count: nat, dim: int, acc: map<Word, Vector>)
    requires pos <= |s|
    requires forall w :: w in acc ==> PlainWord(w) && |acc[w]| == dim
    ensures LenientRecords(s, pos, count, dim, acc).Ok? ==>
      forall w :: w in LenientRecords(s, pos, count, dim, acc).value ==>
        PlainWord(w) && |LenientRecords(s, pos, count, dim, acc).value[w]| == dim
    decreases count
  {
    if count > 0 {
      var step := LenientRecord(s, pos, dim);
      if step.Record? {
        ReadWordIsPlain(s, pos);
        LenientRecordsShape(s, step.next, count - 1, dim, acc[step.word := step.vector]);
      }
    }
  }

  /** The inner loop of `LoadWord2VecModel`: `dim` calls of `binary.Read`, one
      float each, stopping at the first short read. */
  method ReadFloats(s: seq<byte>, start: nat, dim: nat) returns (r: Option<Read<Vector>>)
    requires start <= |s|
    ensures r == ReadVector(s, start, dim)
  {
    var vector: Vector := [];
    var p := start;
    var j := 0;
    while j < dim
      invariant 0 <= j <= dim && p == start + 4 * j <= |s|
      invariant |vector| == j
      invariant forall k :: 0 <= k < j ==> vector[k] == FloatAt(s, start + 4 * k)
    {
      if |s| < p + 4 {
        return None;
      }
      vector := vector + [FloatAt(s, p)];
      p := p + 4;
      j := j + 1;
    }
    assert ReadVector(s, start, dim).value.value == vector;
    return Some(Read(vector, p));
  }

  /** One pass of the records loop of `LoadWord2VecModel`: `ReadString(' ')`,
      `TrimSpace`, `make([]float32, vectorSize)` and the float loop. */
  method ReadRecord(s: seq<byte>, pos: nat, dim: int) returns (r: RecordStep)
    requires pos <= |s|
    ensures r == LenientRecord(s, pos, dim)
  {
    var word := ReadWord(s, pos);
    if word.None? {
      return Failure(WordMissing);
    }
    if dim < 0 {
      return Failure(NegativeLength);
    }
    var vector := ReadFloats(s, word.value.next, dim);
    if vector.None? {
      return Failure(VectorTruncated);
    }
    return Record(word.value.value, vector.value.value, vector.value.next);
  }

  /** The records loop of `LoadWord2VecModel`: `count` records from index `pos`,
      each stored under its word. */
  method ReadRecords(s: seq<byte>, pos: nat, count: nat, dim: int) returns (r: Result<map<Word, Vector>, LoadError>)
    requires pos <= |s|
    ensures r == LenientRecords(s, pos, count, dim, map[])
  {
    ghost var target := LenientRecords(s, pos, count, dim, map[]);
    var vectors: map<Word, Vector> := map[];
    var p: nat := pos;
    var remaining: nat := count;
    while remaining > 0
      invariant p <= |s|
      invariant LenientRecords(s, p, remaining, dim, vectors) == target
    {
      var record := ReadRecord(s, p, dim);
      if record.Failure? {
        LenientRecordsFail(s, p, remaining, dim, vectors, record.error);
        return Err(record.error);
      }
      LenientRecordsAdvance(s, p, remaining, dim, vectors, record.word, record.vector, record.next, target);
      vectors := vectors[record.word := record.vector];
      p := record.next;
      remaining := remaining - 1;
    }
    return Ok(vectors);
  }

  /** `LoadWord2VecModel`: open the file, scan the header, read the records. */
  method LoadWord2VecModel(file: Option<seq<byte>>) returns (r: Result<Word2VecModel, LoadError>)
    ensures r == LenientLoad(file)
  {
    if file.None? {
      return Err(OpenFailed);
    }
    var s := file.value;
    var header := ScanHeader(s);
    var vectors := ReadRecords(s, header.next, Count(header.vocab), header.dim);
    if vectors.Err? {
      return Err(vectors.error);
    }
    return Ok(Word2VecModel(vectors.value, header.dim));
  }

  /** `GetVectorEmbedding`: the token's vector, or a zero vector of the model's
      dimension for a word not in the model. */
  function GetVectorEmbedding(token: Word, model: Word2VecModel): (v: Vector)
    requires token in model.vectors || model.size >= 0
    ensures token in model.vectors ==> v == model.vectors[token]
    ensures token !in model.vectors ==> |v| == model.size && forall k :: 0 <= k < |v| ==> v[k] == Zero
  {
    if token in model.vectors then model.vectors[token] else seq(model.size, _ => Zero)
  }

  /** The first record, straight after the header, loads as its word and vector. */
  lemma LenientRecordOfFirst(s: seq<byte>, pos: nat, w: Word, v: Vector, dim: nat)
    requires PlainWord(w) && RecordAt(s, pos, w, v) && |v| == dim
    ensures LenientRecord(s, pos, dim) == Record(w, v, pos + |w| + 1 + 4 * |v|)
  {
    ReadPlainWord(s, pos, w);
    ReadVectorAt(s, pos + |w| + 1, v);
  }

  /** A later record, behind the newline of the record before it, loads as
      its word and vector: the lenient reader leaves that newline unread and
      the word's trimming drops it. */
  lemma LenientRecordOfNext(s: seq<byte>, pos: nat, w: Word, v: Vector, dim: nat)
    requires PlainWord(w) && pos < |s| && s[pos] == NEWLINE && RecordAt(s, pos + 1, w, v) && |v| == dim
    ensures LenientRecord(s, pos, dim) == Record(w, v, pos + |w| + 2 + 4 * |v|)
  {
    ReadPlainWordAfterNewline(s, pos, w);
    ReadVectorAt(s, pos + |w| + 2, v);
  }

  /** A record that loads is stored and the loop goes on after it. */
  lemma LenientRecordsNext(s: seq<byte>, pos: nat, count: nat, dim: nat, acc: map<Word, Vector>,
                           w: Word, v: Vector, next: nat)
    requires pos <= |s| && count > 0
    requires LenientRecord(s, pos, dim) == Record(w, v, next)
    ensures next <= |s|
    ensures LenientRecords(s, pos, count, dim, acc) == LenientRecords(s, next, count - 1, dim, acc[w := v])
  {
  }

  /** Well-formed records each behind the previous record's newline load as
      the map that storing them in order gives. */
  lemma {:induction false} LenientRecordsOfNext(s: seq<byte>, pos: nat, entries: seq<(Word, Vector)>,
                                                dim: nat, acc: map<Word, Vector>)
    requires Uniform(entries, dim)
    requires pos < |s| && s[pos] == NEWLINE && RecordsAt(s, pos + 1, entries)
    ensures LenientRecords(s, pos, |entries|, dim, acc) == Ok(Store(acc, entries))
    decreases |entries|
  {
    if entries != [] {
      var (w, v) := entries[0];
      var next := pos + |EncodeRecord(w, v)|;
      assert |v| == dim;
      LenientRecordOfNext(s, pos, w, v, dim);
      LenientRecordsOfNext(s, next, entries[1..], dim, acc[w := v]);
      LenientRecordsNext(s, pos, |entries|, dim, acc, w, v, next);
      assert Store(acc, entries) == Store(acc[w := v], entries[1..]);
    }
  }

  /** Well-formed records written one after the other from `pos` load as the
      map that storing them in order gives. */
  lemma LenientRecordsOfWritten(s: seq<byte>, pos: nat, entries: seq<(Word, Vector)>, dim: nat)
    requires forall k :: 0 <= k < |entries| ==> PlainWord(entries[k].0) && |entries[k].1| == dim
    requires pos <= |s| && RecordsAt(s, pos, entries)
    ensures LenientRecords(s, pos, |entries|, dim, map[]) == Ok(Store(map[], entries))
  {
    if entries != [] {
      var (w, v) := entries[0];
      var next := pos + |EncodeRecord(w, v)| - 1;
      LenientRecordOfFirst(s, pos, w, v, dim);
      UniformOfAll(entries, dim);
      LenientRecordsOfNext(s, next, entries[1..], dim, map[w := v]);
      LenientRecordsStep(s, pos, |entries|, dim, map[], LenientRecord(s, pos, dim));
    }
  }

  /** A word written more than once loads with the vector of its last record. */
  lemma LenientDuplicateLastWins(s: seq<byte>, pos: nat, entries: seq<(Word, Vector)>, dim: nat, k: nat)
    requires forall j :: 0 <= j < |entries| ==> PlainWord(entries[j].0) && |entries[j].1| == dim
    requires pos <= |s| && RecordsAt(s, pos, entries)
    requires k < |entries| && forall j :: k < j < |entries| ==> entries[j].0 != entries[k].0
    ensures LenientRecords(s, pos, |entries|, dim, map[]).Ok?
    ensures entries[k].0 in LenientRecords(s, pos, |entries|, dim, map[]).value
    ensures LenientRecords(s, pos, |entries|, dim, map[]).value[entries[k].0] == entries[k].1
  {
    LenientRecordsOfWritten(s, pos, entries, dim);
    StoreLastWins(map[], entries, k);
  }
}
