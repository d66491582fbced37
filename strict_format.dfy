/** The strict loader of the model tools (model_processing_utils/cluster.go and
    model_processing_utils/synonym-finder.go, copied unchanged into the PCA tool):
    the header must scan and hold positive sizes, a single newline after each
    record is skipped, and nothing may follow the last record. */
module StrictFormat {
  import opened Wrappers
  import opened Bytes
  import opened GoStrings
  import opened Word2VecFormat
  import Model

  /** Why `LoadModel` or `LoadVectorModel` fails. */
  datatype LoadError =
    | OpenFailed
    | HeaderUnreadable
    | InvalidHeader(vocab: int, dim: int)
    | WordMissing
    | VectorTruncated
    | TrailingData
    | UnsupportedFormat

  /** The outcome of reading one record. */
  datatype RecordStep = Record(word: Word, vector: Vector, next: nat) | Failure(error: LoadError)

  /** `reader.Peek(1)` and, when it shows a newline, `reader.ReadByte()`. */
  function SkipNewline(s: seq<byte>, p: nat): (q: nat)
    requires p <= |s|
    ensures q <= |s|
  {
    if p < |s| && s[p] == NEWLINE then p + 1 else p
  }

  /** One pass of the records loop at index `pos`: a word up to and including
      the next space, trimmed; `dim` floats; then at most one newline. */
  function StrictRecord(s: seq<byte>, pos: nat, dim: nat): (r: RecordStep)
    requires pos <= |s|
    ensures r.Record? ==> pos < r.next <= |s| && |r.vector| == dim
  {
    match ReadWord(s, pos)
    case None => Failure(WordMissing)
    case Some(w) =>
      match ReadVector(s, w.next, dim)
      case None => Failure(VectorTruncated)
      case Some(v) => Record(w.value, v.value, SkipNewline(s, v.next))
  }

  /** Where the records loop stops: the map as filled so far (it is a field of
      the model, so a failure part-way leaves the records before it in place),
      the read position, and the error that stopped it, if any. */
  datatype Records = Records(vectors: map<Word, Vector>, next: nat, error: Option<LoadError>)

  /** The records loop from index `pos`, with `count` records still to read. */
  function StrictRecords(s: seq<byte>, pos: nat, count: nat, dim: nat, acc: map<Word, Vector>): (r: Records)
    requires pos <= |s|
    ensures r.next <= |s|
    decreases count
  {
    if count == 0 then Records(acc, pos, None)
    else
      match StrictRecord(s, pos, dim)
      case Failure(e) => Records(acc, pos, Some(e))
      case Record(w, v, next) => StrictRecords(s, next, count - 1, dim, acc[w := v])
  }

  /** What `LoadModel` does: a header that does not scan or holds a
      non-positive size is rejected with the model untouched; otherwise the
      model takes the header's dimension and the records read, and the error
      is that of the record loop, or trailing bytes after the last record. */
  datatype Outcome =
    | Rejected(reason: LoadError)
    | Loaded(dim: nat, vectors: map<Word, Vector>, error: Option<LoadError>)
  {
    /** The error `LoadModel` returns. */
    function Failed(): Option<LoadError> {
      if Rejected? then Some(reason) else error
    }
  }

  function StrictLoad(file: Option<seq<byte>>): (r: Outcome)
  {
    match file
    case None => Rejected(OpenFailed)
    case Some(s) =>
      var h := ScanHeader(s);
      if !h.complete then Rejected(HeaderUnreadable)
      else if h.vocab <= 0 || h.dim <= 0 then Rejected(InvalidHeader(h.vocab, h.dim))
      else
        var records := StrictRecords(s, h.next, h.vocab, h.dim, map[]);
        Loaded(h.dim, records.vectors,
               if records.error.Some? then records.error
               else if records.next < |s| then Some(TrailingData)
               else None)
  }

  /** The loader's guarantees: a model is only ever loaded with a positive
      dimension, every vector it holds has that many components, and every
      word it holds is plain (no space inside, no white space at either end). */
  lemma StrictLoadShape(file: Option<seq<byte>>)
    requires StrictLoad(file).Loaded?
    ensures StrictLoad(file).dim > 0
    ensures forall w :: w in StrictLoad(file).vectors ==>
      PlainWord(w) && |StrictLoad(file).vectors[w]| == StrictLoad(file).dim
  {
    var s := file.value;
    var h := ScanHeader(s);
    StrictRecordsShape(s, h.next, h.vocab, h.dim, map[]);
  }

  lemma {:induction false} StrictRecordsShape(s: seq<byte>, pos: nat, count: nat, dim: nat, acc: map<Word, Vector>)
    requires pos <= |s|
    requires forall w :: w in acc ==> PlainWord(w) && |acc[w]| == dim
    ensures forall w :: w in StrictRecords(s, pos, count, dim, acc).vectors ==>
      PlainWord(w) && |StrictRecords(s, pos, count, dim, acc).vectors[w]| == dim
    decreases count
  {
    if count > 0 {
      var step := StrictRecord(s, pos, dim);
      if step.Record? {
        ReadWordIsPlain(s, pos);
        StrictRecordsShape(s, step.next, count - 1, dim, acc[step.word := step.vector]);
      }
    }
  }

  /** A record that fails to load ends the loop with its error and the map
      filled so far. */
  lemma StrictRecordsFail(s: seq<byte>, pos: nat, count: nat, dim: nat, acc: map<Word, Vector>, e: LoadError)
    requires pos <= |s| && count > 0
    requires StrictRecord(s, pos, dim) == Failure(e)
    ensures StrictRecords(s, pos, count, dim, acc) == Records(acc, pos, Some(e))
  {
  }

  /** A record that loads is stored, and the loop's outcome is that of the
      records after it. */
  lemma StrictRecordsAdvance(s: seq<byte>, pos: nat, count: nat, dim: nat, acc: map<Word, Vector>,
                             w: Word, v: Vector, next: nat, result: Records)
    requires pos <= |s| && count > 0
    requires StrictRecord(s, pos, dim) == Record(w, v, next)
    requires StrictRecords(s, pos, count, dim, acc) == result
    ensures next <= |s| && StrictRecords(s, next, count - 1, dim, acc[w := v]) == result
  {
  }

  /** A record as the writers produce it loads as its word and vector, and
      the newline after it is consumed. */
  lemma StrictRecordOfWritten(s: seq<byte>, pos: nat, w: Word, v: Vector, dim: nat)
    requires PlainWord(w) && RecordAt(s, pos, w, v) && |v| == dim
    ensures StrictRecord(s, pos, dim) == Record(w, v, pos + |EncodeRecord(w, v)|)
  {
    ReadPlainWord(s, pos, w);
    ReadVectorAt(s, pos + |w| + 1, v);
  }

  /** Records written one after the other load as the map that storing them
      in order gives, and the loop stops just after the last one. */
  lemma {:induction false} StrictRecordsOfWritten(s: seq<byte>, pos: nat, entries: seq<(Word, Vector)>,
                                                  dim: nat, acc: map<Word, Vector>)
    requires forall k :: 0 <= k < |entries| ==> PlainWord(entries[k].0) && |entries[k].1| == dim
    requires pos <= |s| && RecordsAt(s, pos, entries)
    ensures StrictRecords(s, pos, |entries|, dim, acc) == Records(Store(acc, entries), pos + |EncodeRecords(entries)|, None)
    decreases |entries|
  {
    if entries != [] {
      var (w, v) := entries[0];
      var next := pos + |EncodeRecord(w, v)|;
      StrictRecordOfWritten(s, pos, w, v, dim);
      StrictRecordsOfWritten(s, next, entries[1..], dim, acc[w := v]);
      StrictRecordsNext(s, pos, |entries|, dim, acc, w, v, next);
      assert |EncodeRecords(entries)| == |EncodeRecord(w, v)| + |EncodeRecords(entries[1..])|;
      assert Store(acc, entries) == Store(acc[w := v], entries[1..]);
    }
  }

  /** A word written more than once loads with the vector of its last record. */
  lemma StrictDuplicateLastWins(s: seq<byte>, pos: nat, entries: seq<(Word, Vector)>, dim: nat, k: nat)
    requires forall j :: 0 <= j < |entries| ==> PlainWord(entries[j].0) && |entries[j].1| == dim
    requires pos <= |s| && RecordsAt(s, pos, entries)
    requires k < |entries| && forall j :: k < j < |entries| ==> entries[j].0 != entries[k].0
    ensures StrictRecords(s, pos, |entries|, dim, map[]).error.None?
    ensures entries[k].0 in StrictRecords(s, pos, |entries|, dim, map[]).vectors
    ensures StrictRecords(s, pos, |entries|, dim, map[]).vectors[entries[k].0] == entries[k].1
  {
    StrictRecordsOfWritten(s, pos, entries, dim, map[]);
    StoreLastWins(map[], entries, k);
  }

  /** A file made of the header the writers print and records of plain words
      and equal positive length loads whole, with nothing left over. */
  lemma StrictLoadOfWritten(s: seq<byte>, entries: seq<(Word, Vector)>, dim: nat)
    requires 0 < |entries| <= MAX_INT && 0 < dim <= MAX_INT
    requires forall k :: 0 <= k < |entries| ==> PlainWord(entries[k].0) && |entries[k].1| == dim
    requires s == FormatHeader(|entries|, dim) + EncodeRecords(entries)
    ensures StrictLoad(Some(s)) == Loaded(dim, Store(map[], entries), None)
  {
    var header := FormatHeader(|entries|, dim);
    BytesAtConcat(s, header, EncodeRecords(entries));
    ScanHeaderOfFormat(s, |entries|, dim);
    RecordsAtOfBytes(s, |header|, entries);
    StrictRecordsOfWritten(s, |header|, entries, dim, map[]);
    StrictLoadOfScanned(s, |entries|, dim, |header|, Store(map[], entries));
  }

  /** A file whose header scans with positive sizes and whose records end
      exactly at the end of the file loads without error. */
  lemma StrictLoadOfScanned(s: seq<byte>, vocab: nat, dim: nat, pos: nat, vectors: map<Word, Vector>)
    requires vocab > 0 && dim > 0 && pos <= |s|
    requires ScanHeader(s) == Header(vocab, dim, true, pos)
    requires StrictRecords(s, pos, vocab, dim, map[]) == Records(vectors, |s|, None)
    ensures StrictLoad(Some(s)) == Loaded(dim, vectors, None)
  {
  }

  /** The two halves of a concatenation sit at its start and after the first. */
  lemma BytesAtConcat(s: seq<byte>, a: seq<byte>, b: seq<byte>)
    requires s == a + b
    ensures BytesAt(s, 0, a) && BytesAt(s, |a|, b)
  {
    assert s[0..|a|] == a;
    assert s[|a|..|a| + |b|] == b;
  }

  /** The header `"0 0\n"` is rejected whatever follows it. */
  lemma StrictLoadRejectsEmptyHeader(s: seq<byte>)
    requires BytesAt(s, 0, FormatHeader(0, 0))
    ensures StrictLoad(Some(s)) == Rejected(InvalidHeader(0, 0))
  {
    ScanHeaderOfFormat(s, 0, 0);
  }

  /** A record that loads is stored and the loop goes on after it. */
  lemma StrictRecordsNext(s: seq<byte>, pos: nat, count: nat, dim: nat, acc: map<Word, Vector>,
                          w: Word, v: Vector, next: nat)
    requires pos <= |s| && count > 0
    requires StrictRecord(s, pos, dim) == Record(w, v, next)
    ensures next <= |s| && StrictRecords(s, pos, count, dim, acc) == StrictRecords(s, next, count - 1, dim, acc[w := v])
  {
  }

  /** One pass of the records loop: `ReadString(' ')`, `TrimSpace`, the float
      loop and the newline check. */
  method ReadStrictRecord(s: seq<byte>, pos: nat, dim: nat) returns (r: RecordStep)
    requires pos <= |s|
    ensures r == StrictRecord(s, pos, dim)
  {
    var word := ReadWord(s, pos);
    if word.None? {
      return Failure(WordMissing);
    }
    var vector := Model.ReadFloats(s, word.value.next, dim);
    if vector.None? {
      return Failure(VectorTruncated);
    }
    var next := vector.value.next;
    if next < |s| && s[next] == NEWLINE {
      next := next + 1;
    }
    return Record(word.value.value, vector.value.value, next);
  }

  /** The records loop of `LoadModel`, storing each record under its word. */
  method ReadStrictRecords(s: seq<byte>, pos: nat, count: nat, dim: nat) returns (r: Records)
    requires pos <= |s|
    ensures r == StrictRecords(s, pos, count, dim, map[])
  {
    ghost var target := StrictRecords(s, pos, count, dim, map[]);
    var vectors: map<Word, Vector> := map[];
    var p: nat := pos;
    var remaining: nat := count;
    while remaining > 0
      invariant p <= |s|
      invariant StrictRecords(s, p, remaining, dim, vectors) == target
    {
      var record := ReadStrictRecord(s, p, dim);
      if record.Failure? {
        StrictRecordsFail(s, p, remaining, dim, vectors, record.error);
        return Records(vectors, p, Some(record.error));
      }
      StrictRecordsAdvance(s, p, remaining, dim, vectors, record.word, record.vector, record.next, target);
      vectors := vectors[record.word := record.vector];
      p := record.next;
      remaining := remaining - 1;
    }
    return Records(vectors, p, None);
  }

  /** The body of `LoadModel` on the file's bytes (`None`: it does not open). */
  method Load(file: Option<seq<byte>>) returns (r: Outcome)
    ensures r == StrictLoad(file)
  {
    if file.None? {
      return Rejected(OpenFailed);
    }
    var s := file.value;
    var header := ScanHeader(s);
    if !header.complete {
      return Rejected(HeaderUnreadable);
    }
    if header.vocab <= 0 || header.dim <= 0 {
      return Rejected(InvalidHeader(header.vocab, header.dim));
    }
    var records := ReadStrictRecords(s, header.next, header.vocab, header.dim);
    if records.error.Some? {
      return Loaded(header.dim, records.vectors, records.error);
    }
    if records.next < |s| {
      return Loaded(header.dim, records.vectors, Some(TrailingData));
    }
    return Loaded(header.dim, records.vectors, None);
  }

  /** `VecModel32bit` of the clustering and synonym tools. */
  class VecModel32bit {
    var vectors: map<Word, Vector>
    var size: int

    /** `&VecModel32bit{}`: no vectors, size 0. */
    constructor ()
      ensures vectors == map[] && size == 0
    {
      vectors := map[];
      size := 0;
    }

    /** `LoadModel`: a rejected header leaves the model as it was; otherwise
        the model takes the header's dimension and whatever records were read
        before the loop stopped. */
    method LoadModel(file: Option<seq<byte>>) returns (err: Option<LoadError>)
      modifies this
      ensures err == StrictLoad(file).Failed()
      ensures StrictLoad(file).Rejected? ==> vectors == old(vectors) && size == old(size)
      ensures StrictLoad(file).Loaded? ==> vectors == StrictLoad(file).vectors && size == StrictLoad(file).dim
    {
      var outcome := Load(file);
      if outcome.Rejected? {
        return Some(outcome.reason);
      }
      vectors := outcome.vectors;
      size := outcome.dim;
      return outcome.error;
    }

    /** `GetEmbedding`: the stored vector, or a zero vector of the model's size
        for a word it does not hold. */
    function GetEmbedding(token: Word): (v: Vector)
      reads this
      requires token in vectors || size >= 0
      ensures token in vectors ==> v == vectors[token]
      ensures token !in vectors ==> |v| == size && forall k :: 0 <= k < |v| ==> v[k] == Zero
    {
      Model.GetVectorEmbedding(token, Model.Word2VecModel(vectors, size))
    }
  }

  /** `LoadVectorModel`: only names ending in ".bin" are loaded, and a model
      is returned only when `LoadModel` succeeds. */
  method LoadVectorModel(filename: seq<byte>, file: Option<seq<byte>>) returns (model: VecModel32bit?, err: Option<LoadError>)
    ensures !HasSuffix(filename, Ascii(".bin")) ==> model == null && err == Some(UnsupportedFormat)
    ensures HasSuffix(filename, Ascii(".bin")) ==> err == StrictLoad(file).Failed()
    ensures model == null <==> err.Some?
    ensures model != null ==>
      && fresh(model) && StrictLoad(file).Loaded?
      && model.vectors == StrictLoad(file).vectors && model.size == StrictLoad(file).dim
  {
    if !HasSuffix(filename, Ascii(".bin")) {
      return null, Some(UnsupportedFormat);
    }
    model := new VecModel32bit();
    err := model.LoadModel(file);
    if err.Some? {
      model := null;
    }
  }
}
