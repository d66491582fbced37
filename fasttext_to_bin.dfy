/** The FastText-to-word2vec converter (model_processing_utils/fasttext-to-bin.go):
    a text model whose first line is `"<vocab> <dim>"` and whose other lines are
    a word and its components in decimal becomes a binary model: the same
    header as text, then each word, a space and its components as
    little-endian float32 values, with no newline between records. */
module FastTextToBin {
  import opened Wrappers
  import opened Bytes
  import opened GoStrings
  import opened Word2VecFormat
  import Model
  import StrictFormat

  /** Why a conversion stops. `WordIndexPanics` stands for the run-time panic
      of `parts[0]` on a blank line, which only a dimension of -1 lets through. */
  datatype ConvertError =
    | CreateFailed
    | HeaderMissing
    | HeaderMalformed
    | VocabInvalid
    | DimInvalid
    | LineMalformed(expected: int, got: nat)
    | WordIndexPanics
    | FloatInvalid

  /** The bytes written to the output, and the error that stopped the writing,
      if any. The deferred `Flush` keeps whatever was written before an error. */
  datatype Written = Written(bytes: seq<byte>, error: Option<ConvertError>)

  /** `strconv.Atoi`: an optional sign and at least one decimal digit, nothing
      else, and a value that fits in Go's `int`. */
  function Atoi(s: seq<byte>): (r: Option<int>)
    ensures r.Some? ==> MIN_INT <= r.value <= MAX_INT
  {
    var digits := if |s| > 0 && (s[0] == PLUS || s[0] == MINUS) then s[1..] else s;
    if digits == [] || !AllDigits(digits) then None
    else
      var n: int := DigitsValue(digits);
      var v := if s[0] == MINUS then -n else n;
      if v < MIN_INT || v > MAX_INT then None else Some(v)
  }

  /** What `%d` prints, `Atoi` reads back. */
  lemma AtoiOfFormatInt(n: int)
    requires MIN_INT <= n <= MAX_INT
    ensures Atoi(FormatInt(n)) == Some(n)
  {
    var s := FormatInt(n);
    if n < 0 {
      DigitsValueOfFormatNat(-n);
      assert s[1..] == FormatNat(-n);
    } else {
      DigitsValueOfFormatNat(n);
      assert s[0] != PLUS && s[0] != MINUS;
    }
  }

  /** `vectorSize + 1` in Go's 64-bit `int`, which wraps at the top. */
  function Succ64(n: int): (r: int)
    requires MIN_INT <= n <= MAX_INT
    ensures MIN_INT <= r <= MAX_INT
    ensures n < MAX_INT ==> r == n + 1
    ensures n == MAX_INT ==> r < 0
  {
    if n == MAX_INT then MIN_INT else n + 1
  }

  /** The loop of `strconv.ParseFloat` calls: every field must parse, and the
      vector holds the parsed values in order. `parse` is `ParseFloat(_, 32)`
      followed by the conversion to float32. */
  function ParseComponents(fields: seq<seq<byte>>, parse: seq<byte> -> Option<Float32>): (r: Option<Vector>)
    ensures r.Some? <==> forall k :: 0 <= k < |fields| ==> parse(fields[k]).Some?
    ensures r.Some? ==> |r.value| == |fields| && forall k :: 0 <= k < |fields| ==> r.value[k] == parse(fields[k]).value
  {
    if forall k :: 0 <= k < |fields| ==> parse(fields[k]).Some? then
      Some(seq(|fields|, k requires 0 <= k < |fields| => parse(fields[k]).value))
    else None
  }

  /** One data line: exactly `dim + 1` fields, the word and a space written,
      then the components parsed and written. */
  function ConvertLine(line: seq<byte>, dim: int, parse: seq<byte> -> Option<Float32>): (r: Written)
    requires MIN_INT <= dim <= MAX_INT
  {
    var parts := Fields(line);
    if |parts| != Succ64(dim) then Written([], Some(LineMalformed(Succ64(dim), |parts|)))
    else if parts == [] then Written([], Some(WordIndexPanics))
    else
      var head := parts[0] + [SPACE];
      match ParseComponents(parts[1..], parse)
      case None => Written(head, Some(FloatInvalid))
      case Some(v) => Written(head + EncodeVector(v), None)
  }

  /** The data lines in order, up to the first that fails. */
  function ConvertLines(lines: seq<seq<byte>>, dim: int, parse: seq<byte> -> Option<Float32>): Written
    requires MIN_INT <= dim <= MAX_INT
    decreases |lines|
  {
    if lines == [] then Written([], None)
    else
      var first := ConvertLine(lines[0], dim, parse);
      if first.error.Some? then first
      else
        var rest := ConvertLines(lines[1..], dim, parse);
        Written(first.bytes + rest.bytes, rest.error)
  }

  /** `convertFastTextToWord2Vec` on the lines the scanner yields, with
      `canCreate` telling whether `os.Create` succeeds. */
  function Convert(lines: seq<seq<byte>>, parse: seq<byte> -> Option<Float32>, canCreate: bool): Written
  {
    if !canCreate then Written([], Some(CreateFailed))
    else if lines == [] then Written([], Some(HeaderMissing))
    else
      var header := Fields(lines[0]);
      if |header| != 2 then Written([], Some(HeaderMalformed))
      else
        match Atoi(header[0])
        case None => Written([], Some(VocabInvalid))
        case Some(vocab) =>
          match Atoi(header[1])
          case None => Written([], Some(DimInvalid))
          case Some(dim) =>
            var body := ConvertLines(lines[1..], dim, parse);
            Written(FormatHeader(vocab, dim) + body.bytes, body.error)
  }

  // ---------------------------------------------------------------------------
  // What a conversion produces
  // ---------------------------------------------------------------------------

  /** A data line the converter accepts: a word and `dim` fields that parse
      (`dim + 1` wraps to a negative count when `dim` is the largest `int`). */
  ghost predicate LineOk(line: seq<byte>, dim: int, parse: seq<byte> -> Option<Float32>) {
    && 0 <= dim < MAX_INT && |Fields(line)| == dim + 1
    && ParseComponents(Fields(line)[1..], parse).Some?
  }

  /** The word and vector an accepted line becomes. */
  ghost function LineEntry(line: seq<byte>, dim: int, parse: seq<byte> -> Option<Float32>): (Word, Vector)
    requires LineOk(line, dim, parse)
  {
    (Fields(line)[0], ParseComponents(Fields(line)[1..], parse).value)
  }

  /** A record without a newline: the word, a space and the vector's bytes. */
  function EncodePacked(w: Word, v: Vector): (r: seq<byte>)
    ensures |r| == |w| + 1 + 4 * |v|
  {
    w + [SPACE] + EncodeVector(v)
  }

  function EncodePackedRecords(entries: seq<(Word, Vector)>): seq<byte>
  {
    if entries == [] then [] else EncodePacked(entries[0].0, entries[0].1) + EncodePackedRecords(entries[1..])
  }

  /** A line is accepted exactly when it is converted without error, and then
      it is written as its word, a space and its vector. */
  lemma ConvertLineOk(line: seq<byte>, dim: int, parse: seq<byte> -> Option<Float32>)
    requires MIN_INT <= dim <= MAX_INT
    ensures ConvertLine(line, dim, parse).error.None? <==> LineOk(line, dim, parse)
    ensures LineOk(line, dim, parse) ==>
      ConvertLine(line, dim, parse).bytes == EncodePacked(LineEntry(line, dim, parse).0, LineEntry(line, dim, parse).1)
  {
    var parts := Fields(line);
    if |parts| == Succ64(dim) && parts != [] {
      assert dim < MAX_INT && |parts| == dim + 1;
    }
  }

  /** The converter stops with no error exactly when every data line is
      accepted; it then writes one record per data line, in order, however
      many the header announced. */
  lemma {:induction false} ConvertLinesOk(lines: seq<seq<byte>>, dim: int, parse: seq<byte> -> Option<Float32>)
    requires MIN_INT <= dim <= MAX_INT
    ensures ConvertLines(lines, dim, parse).error.None? <==> LinesOk(lines, dim, parse)
    ensures LinesOk(lines, dim, parse) ==>
      ConvertLines(lines, dim, parse).bytes == EncodePackedRecords(Entries(lines, dim, parse))
    decreases |lines|
  {
    if lines != [] {
      ConvertLineOk(lines[0], dim, parse);
      ConvertLinesOk(lines[1..], dim, parse);
      assert forall k :: 0 <= k < |lines| - 1 ==> lines[1..][k] == lines[k + 1];
      if LinesOk(lines, dim, parse) {
        assert Entries(lines, dim, parse)[1..] == Entries(lines[1..], dim, parse);
      } else if LinesOk(lines[1..], dim, parse) {
        assert !LineOk(lines[0], dim, parse);
      }
    }
  }

  /** Whatever happens after the header, the output starts with the header
      `"<vocab> <dim>\n"` of the two integers read from the first line. */
  lemma ConvertWritesHeader(lines: seq<seq<byte>>, parse: seq<byte> -> Option<Float32>)
    requires |lines| > 0 && |Fields(lines[0])| == 2
    requires Atoi(Fields(lines[0])[0]).Some? && Atoi(Fields(lines[0])[1]).Some?
    ensures var header := FormatHeader(Atoi(Fields(lines[0])[0]).value, Atoi(Fields(lines[0])[1]).value);
      Convert(lines, parse, true).bytes[..|header|] == header
  {
  }

  // ---------------------------------------------------------------------------
  // The converted file loads
  // ---------------------------------------------------------------------------

  /** No white-space rune starts anywhere in `w`. */
  ghost predicate SpaceFree(w: seq<byte>) {
    forall k :: 0 <= k < |w| ==> SpaceWidth(w, k) == 0
  }

  /** A word with no white space in it is plain. */
  lemma SpaceFreeIsPlain(w: seq<byte>)
    requires SpaceFree(w)
    ensures PlainWord(w)
  {
    if SPACE in w {
      var k :| 0 <= k < |w| && w[k] == SPACE;
      assert SpaceWidth(w, k) == 1;
    }
    var n := |w|;
    if n >= 1 {
      assert SpaceWidth(w, n - 1) == 0;
    }
    if n >= 2 {
      assert SpaceWidth(w, n - 2) == 0;
    }
    if n >= 3 {
      assert SpaceWidth(w, n - 3) == 0;
    }
  }

  /** A slice cannot start a white-space rune where the whole string does not. */
  lemma SpaceWidthOfSlice(s: seq<byte>, i: nat, j: nat, k: nat)
    requires i <= j <= |s| && k < j - i && SpaceWidth(s, i + k) == 0
    ensures SpaceWidth(s[i..j], k) == 0
  {
    var t := s[i..j];
    assert forall m :: k <= m < |t| ==> t[m] == s[i + m];
  }

  /** Every field has no white space in it. */
  lemma {:induction false} FieldsAreSpaceFree(s: seq<byte>)
    ensures forall f :: f in Fields(s) ==> SpaceFree(f)
    decreases |s|
  {
    var i := SkipSpaces(s, 0);
    if i < |s| {
      var j := FieldEnd(s, i);
      forall k | 0 <= k < j - i ensures SpaceWidth(s[i..j], k) == 0 {
        SpaceWidthOfSlice(s, i, j, k);
      }
      FieldsAreSpaceFree(s[j..]);
    }
  }

  /** Every accepted line, one entry each, in order. */
  ghost predicate LinesOk(lines: seq<seq<byte>>, dim: int, parse: seq<byte> -> Option<Float32>) {
    forall k :: 0 <= k < |lines| ==> LineOk(lines[k], dim, parse)
  }

  ghost function Entries(lines: seq<seq<byte>>, dim: int, parse: seq<byte> -> Option<Float32>): (r: seq<(Word, Vector)>)
    requires LinesOk(lines, dim, parse)
    ensures |r| == |lines|
  {
    seq(|lines|, k requires 0 <= k < |lines| => LineEntry(lines[k], dim, parse))
  }

  /** An accepted line's word is non-empty and plain, and its vector has
      `dim` components. */
  lemma LineEntryShape(line: seq<byte>, dim: int, parse: seq<byte> -> Option<Float32>)
    requires LineOk(line, dim, parse)
    ensures |LineEntry(line, dim, parse).0| > 0 && PlainWord(LineEntry(line, dim, parse).0)
    ensures |LineEntry(line, dim, parse).1| == dim
  {
    var parts := Fields(line);
    assert parts[0] in parts;
    FieldsAreSpaceFree(line);
    SpaceFreeIsPlain(parts[0]);
  }

  /** The records of a packed file, each a non-empty plain word and a vector
      of `dim` components. */
  ghost predicate PackedEntries(entries: seq<(Word, Vector)>, dim: nat)
    decreases |entries|
  {
    entries == [] ||
      (|entries[0].0| > 0 && PlainWord(entries[0].0) && |entries[0].1| == dim && PackedEntries(entries[1..], dim))
  }

  lemma {:induction false} PackedEntriesOfAll(entries: seq<(Word, Vector)>, dim: nat)
    requires forall k :: 0 <= k < |entries| ==> |entries[k].0| > 0 && PlainWord(entries[k].0) && |entries[k].1| == dim
    ensures PackedEntries(entries, dim)
    decreases |entries|
  {
    if entries != [] {
      assert forall k :: 0 <= k < |entries| - 1 ==> entries[1..][k] == entries[k + 1];
      PackedEntriesOfAll(entries[1..], dim);
    }
  }

  /** Both loaders read the word and the vector of a packed record. */
  lemma ReadPacked(s: seq<byte>, pos: nat, w: Word, v: Vector)
    requires PlainWord(w) && BytesAt(s, pos, EncodePacked(w, v))
    ensures ReadWord(s, pos) == Some(Read(w, pos + |w| + 1))
    ensures ReadVector(s, pos + |w| + 1, |v|) == Some(Read(v, pos + |EncodePacked(w, v)|))
  {
    BytesAtSplit(s, pos, w + [SPACE], EncodeVector(v));
    BytesAtSplit(s, pos, w, [SPACE]);
    assert s[pos + |w|] == SPACE by { assert s[pos + |w|] == s[pos + |w|..pos + |w| + 1][0]; }
    ReadPlainWord(s, pos, w);
    ReadVectorAt(s, pos + |w| + 1, v);
  }

  /** Packed records that start with a non-empty plain word do not start
      with a newline. */
  lemma PackedRecordsStart(s: seq<byte>, pos: nat, entries: seq<(Word, Vector)>)
    requires entries != [] && |entries[0].0| > 0 && PlainWord(entries[0].0)
    requires BytesAt(s, pos, EncodePackedRecords(entries))
    ensures pos < |s| && s[pos] != NEWLINE
  {
    var w := entries[0].0;
    assert s[pos] == EncodePackedRecords(entries)[0] == w[0];
    assert SpaceWidth(w, 0) == 0;
  }

  /** A packed record not followed by a newline loads with the strict loader
      as its word and vector. */
  lemma StrictPackedRecord(s: seq<byte>, pos: nat, w: Word, v: Vector, dim: nat)
    requires PlainWord(w) && BytesAt(s, pos, EncodePacked(w, v)) && |v| == dim
    requires pos + |EncodePacked(w, v)| < |s| ==> s[pos + |EncodePacked(w, v)|] != NEWLINE
    ensures StrictFormat.StrictRecord(s, pos, dim) == StrictFormat.Record(w, v, pos + |EncodePacked(w, v)|)
  {
    ReadPacked(s, pos, w, v);
  }

  /** Packed records that run to the end of the file load with the strict
      loader: no newline follows a record, since a word never starts with one. */
  lemma {:induction false} StrictPackedRecords(s: seq<byte>, pos: nat, entries: seq<(Word, Vector)>,
                                               dim: nat, acc: map<Word, Vector>)
    requires PackedEntries(entries, dim)
    requires BytesAt(s, pos, EncodePackedRecords(entries)) && pos + |EncodePackedRecords(entries)| == |s|
    ensures StrictFormat.StrictRecords(s, pos, |entries|, dim, acc) == StrictFormat.Records(Store(acc, entries), |s|, None)
    decreases |entries|
  {
    if entries != [] {
      var w, v := entries[0].0, entries[0].1;
      var first, rest := EncodePacked(w, v), EncodePackedRecords(entries[1..]);
      BytesAtSplit(s, pos, first, rest);
      var next := pos + |first|;
      if entries[1..] != [] {
        PackedRecordsStart(s, next, entries[1..]);
      }
      StrictPackedRecord(s, pos, w, v, dim);
      StrictPackedRecords(s, next, entries[1..], dim, acc[w := v]);
      StrictFormat.StrictRecordsNext(s, pos, |entries|, dim, acc, w, v, next);
      assert Store(acc, entries) == Store(acc[w := v], entries[1..]);
    }
  }

  /** A packed record loads with the lenient loader as its word and vector. */
  lemma LenientPackedRecord(s: seq<byte>, pos: nat, w: Word, v: Vector, dim: nat)
    requires PlainWord(w) && BytesAt(s, pos, EncodePacked(w, v)) && |v| == dim
    ensures Model.LenientRecord(s, pos, dim) == Model.Record(w, v, pos + |EncodePacked(w, v)|)
  {
    ReadPacked(s, pos, w, v);
  }

  /** Packed records load with the lenient loader. */
  lemma {:induction false} LenientPackedRecords(s: seq<byte>, pos: nat, entries: seq<(Word, Vector)>,
                                                dim: nat, acc: map<Word, Vector>)
    requires PackedEntries(entries, dim)
    requires BytesAt(s, pos, EncodePackedRecords(entries))
    ensures Model.LenientRecords(s, pos, |entries|, dim, acc) == Ok(Store(acc, entries))
    decreases |entries|
  {
    if entries != [] {
      var w, v := entries[0].0, entries[0].1;
      var first, rest := EncodePacked(w, v), EncodePackedRecords(entries[1..]);
      BytesAtSplit(s, pos, first, rest);
      var next := pos + |first|;
      LenientPackedRecord(s, pos, w, v, dim);
      LenientPackedRecords(s, next, entries[1..], dim, acc[w := v]);
      Model.LenientRecordsNext(s, pos, |entries|, dim, acc, w, v, next);
      assert Store(acc, entries) == Store(acc[w := v], entries[1..]);
    }
  }

  /** A conversion without error whose header announces as many words as
      there are data lines and a positive dimension gives a file that both
      loaders read whole, as the words and vectors of the data lines. */
  lemma ConvertedModelLoads(lines: seq<seq<byte>>, parse: seq<byte> -> Option<Float32>, dim: nat)
    requires |lines| > 1 && |Fields(lines[0])| == 2
    requires Atoi(Fields(lines[0])[0]) == Some(|lines| - 1) && Atoi(Fields(lines[0])[1]) == Some(dim) && dim > 0
    requires Convert(lines, parse, true).error.None?
    ensures LinesOk(lines[1..], dim, parse)
    ensures StrictFormat.StrictLoad(Some(Convert(lines, parse, true).bytes))
      == StrictFormat.Loaded(dim, Store(map[], Entries(lines[1..], dim, parse)), None)
    ensures Model.LenientLoad(Some(Convert(lines, parse, true).bytes))
      == Ok(Model.Word2VecModel(Store(map[], Entries(lines[1..], dim, parse)), dim))
  {
    var data := lines[1..];
    var vocab := |lines| - 1;
    ConvertLinesOk(data, dim, parse);
    var entries := Entries(data, dim, parse);
    forall k | 0 <= k < |entries|
      ensures |entries[k].0| > 0 && PlainWord(entries[k].0) && |entries[k].1| == dim
    {
      LineEntryShape(data[k], dim, parse);
    }
    PackedEntriesOfAll(entries, dim);
    var s := Convert(lines, parse, true).bytes;
    assert s == FormatHeader(vocab, dim) + EncodePackedRecords(entries);
    PackedFileLoads(s, entries, dim);
  }

  /** A header and packed records of that many entries load whole with both
      loaders. */
  lemma PackedFileLoads(s: seq<byte>, entries: seq<(Word, Vector)>, dim: nat)
    requires 0 < |entries| <= MAX_INT && 0 < dim <= MAX_INT && PackedEntries(entries, dim)
    requires s == FormatHeader(|entries|, dim) + EncodePackedRecords(entries)
    ensures StrictFormat.StrictLoad(Some(s)) == StrictFormat.Loaded(dim, Store(map[], entries), None)
    ensures Model.LenientLoad(Some(s)) == Ok(Model.Word2VecModel(Store(map[], entries), dim))
  {
    var header := FormatHeader(|entries|, dim);
    StrictFormat.BytesAtConcat(s, header, EncodePackedRecords(entries));
    ScanHeaderOfFormat(s, |entries|, dim);
    StrictPackedRecords(s, |header|, entries, dim, map[]);
    LenientPackedRecords(s, |header|, entries, dim, map[]);
  }

  // ---------------------------------------------------------------------------
  // The converter
  // ---------------------------------------------------------------------------

  /** The float loop of one line: `strconv.ParseFloat` on each field after the
      word, stopping at the first that fails. */
  method ParseVector(fields: seq<seq<byte>>, parse: seq<byte> -> Option<Float32>) returns (r: Option<Vector>)
    ensures r == ParseComponents(fields, parse)
  {
    var vector: Vector := [];
    for i := 0 to |fields|
      invariant |vector| == i
      invariant forall k :: 0 <= k < i ==> parse(fields[k]).Some? && vector[k] == parse(fields[k]).value
    {
      var value := parse(fields[i]);
      if value.None? {
        return None;
      }
      vector := vector + [value.value];
    }
    assert vector == ParseComponents(fields, parse).value;
    return Some(vector);
  }

  /** One pass of the line loop: split into fields, check their number,
      write the word and a space, parse and write the vector. */
  method ConvertOneLine(line: seq<byte>, dim: int, parse: seq<byte> -> Option<Float32>) returns (r: Written)
    requires MIN_INT <= dim <= MAX_INT
    ensures r == ConvertLine(line, dim, parse)
  {
    var parts := Fields(line);
    var expected := if dim == MAX_INT then MIN_INT else dim + 1;
    if |parts| != expected {
      return Written([], Some(LineMalformed(expected, |parts|)));
    }
    if |parts| == 0 {
      return Written([], Some(WordIndexPanics));
    }
    var out := parts[0] + [SPACE];
    var vector := ParseVector(parts[1..], parse);
    if vector.None? {
      return Written(out, Some(FloatInvalid));
    }
    out := out + EncodeVector(vector.value);
    return Written(out, None);
  }

  /** `convertFastTextToWord2Vec` over the scanner's lines. */
  method ConvertFastTextToWord2Vec(lines: seq<seq<byte>>, parse: seq<byte> -> Option<Float32>, canCreate: bool)
    returns (out: seq<byte>, err: Option<ConvertError>)
    ensures Written(out, err) == Convert(lines, parse, canCreate)
  {
    if !canCreate {
      return [], Some(CreateFailed);
    }
    if |lines| == 0 {
      return [], Some(HeaderMissing);
    }
    var header := Fields(lines[0]);
    if |header| != 2 {
      return [], Some(HeaderMalformed);
    }
    var vocabSize := Atoi(header[0]);
    if vocabSize.None? {
      return [], Some(VocabInvalid);
    }
    var vectorSize := Atoi(header[1]);
    if vectorSize.None? {
      return [], Some(DimInvalid);
    }
    var dim := vectorSize.value;
    out := FormatHeader(vocabSize.value, dim);
    ghost var target := Convert(lines, parse, canCreate);
    var i := 1;
    while i < |lines|
      invariant 1 <= i <= |lines|
      invariant out + ConvertLines(lines[i..], dim, parse).bytes == target.bytes
      invariant ConvertLines(lines[i..], dim, parse).error == target.error
    {
      var written := ConvertOneLine(lines[i], dim, parse);
      assert lines[i..][0] == lines[i] && lines[i..][1..] == lines[i + 1..];
      out := out + written.bytes;
      if written.error.Some? {
        return out, written.error;
      }
      i := i + 1;
    }
    return out, None;
  }
}
