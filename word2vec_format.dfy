/** The word2vec binary model format as the tools read and write it: a text header
    `"<vocab> <dim>\n"` read with `fmt.Fscanf(reader, "%d %d\n", ...)`, then records
    made of a word ended by a space and `dim` little-endian float32 values.
    This module holds the pieces every reader and writer shares. */
module Word2VecFormat {
  import opened Wrappers
  import opened Bytes
  import opened GoStrings

  /** A float32 value held as its IEEE-754 bit pattern, byte `b0` least significant.
      The tools never look inside one, they only copy it. */
  datatype Float32 = Float32(b0: byte, b1: byte, b2: byte, b3: byte)

  type Vector = seq<Float32>
  type Word = seq<byte>

  /** A value read from a byte string, with the index just after it. */
  datatype Read<T> = Read(value: T, next: nat)

  /** Byte `j` (0 = least significant) of a float's encoding. */
  function ByteOf(f: Float32, j: nat): byte
    requires j < 4
  {
    if j == 0 then f.b0 else if j == 1 then f.b1 else if j == 2 then f.b2 else f.b3
  }

  /** The float32 zero, as `make([]float32, n)` fills a new vector. */
  const Zero := Float32(0, 0, 0, 0)

  /** `binary.Read(reader, binary.LittleEndian, &x)` on a float32 at index `p`. */
  function FloatAt(s: seq<byte>, p: nat): (f: Float32)
    requires p + 4 <= |s|
  {
    Float32(s[p], s[p + 1], s[p + 2], s[p + 3])
  }

  /** `binary.Write(writer, binary.LittleEndian, v)`: each component's four bytes,
      least significant first, components in order. */
  function EncodeVector(v: Vector): (r: seq<byte>)
    ensures |r| == 4 * |v|
  {
    seq(4 * |v|, i requires 0 <= i < 4 * |v| => ByteOf(v[i / 4], i % 4))
  }

  /** Byte `j` of component `k` sits at index `4 * k + j` of the encoding. */
  lemma EncodeVectorAt(v: Vector, k: nat, j: nat)
    requires k < |v| && j < 4
    ensures EncodeVector(v)[4 * k + j] == ByteOf(v[k], j)
  {
    assert (4 * k + j) / 4 == k && (4 * k + j) % 4 == j;
  }

  /** Reading `dim` components with `binary.Read`: `None` when fewer than `4 * dim`
      bytes remain (a short read is an error). */
  function ReadVector(s: seq<byte>, pos: nat, dim: nat): (r: Option<Read<Vector>>)
    requires pos <= |s|
    ensures r.Some? <==> pos + 4 * dim <= |s|
    ensures r.Some? ==> |r.value.value| == dim && r.value.next == pos + 4 * dim
  {
    if pos + 4 * dim <= |s| then
      Some(Read(seq(dim, k requires 0 <= k < dim => FloatAt(s, pos + 4 * k)), pos + 4 * dim))
    else None
  }

  /** The bytes of `t` sit in `s` from index `pos` on. */
  predicate BytesAt(s: seq<byte>, pos: nat, t: seq<byte>) {
    pos + |t| <= |s| && s[pos..pos + |t|] == t
  }

  /** The float read where component `k` of an encoded vector was written is that component. */
  lemma FloatAtOfEncoded(s: seq<byte>, pos: nat, v: Vector, k: nat)
    requires BytesAt(s, pos, EncodeVector(v)) && k < |v|
    ensures FloatAt(s, pos + 4 * k) == v[k]
  {
    var e := EncodeVector(v);
    forall j | 0 <= j < 4
      ensures s[pos + 4 * k + j] == ByteOf(v[k], j)
    {
      assert s[pos + 4 * k + j] == e[4 * k + j];
      EncodeVectorAt(v, k, j);
    }
  }

  /** An encoded vector reads back as the vector. */
  lemma ReadVectorAt(s: seq<byte>, pos: nat, v: Vector)
    requires BytesAt(s, pos, EncodeVector(v))
    ensures ReadVector(s, pos, |v|) == Some(Read(v, pos + 4 * |v|))
  {
    var r := ReadVector(s, pos, |v|);
    forall k | 0 <= k < |v|
      ensures r.value.value[k] == v[k]
    {
      FloatAtOfEncoded(s, pos, v, k);
    }
    assert r.value.value == v;
  }

  /** `reader.ReadString(' ')` followed by `strings.TrimSpace`: the bytes up to and
      including the next space, trimmed. `None` when no space is left (Go returns
      the partial word with `io.EOF`, which every loader treats as an error). */
  function ReadWord(s: seq<byte>, pos: nat): (r: Option<Read<Word>>)
    requires pos <= |s|
    ensures r.Some? ==> pos < r.value.next <= |s| && s[r.value.next - 1] == SPACE
  {
    var j := IndexOf(s, pos, SPACE);
    if j == |s| then None else Some(Read(TrimSpace(s[pos..j + 1]), j + 1))
  }

  /** ReadWord fails exactly when no space is left, and otherwise stops at the
      first space. */
  lemma ReadWordStopsAtFirstSpace(s: seq<byte>, pos: nat)
    requires pos <= |s|
    ensures ReadWord(s, pos).None? <==> forall k :: pos <= k < |s| ==> s[k] != SPACE
    ensures ReadWord(s, pos).Some? ==> forall k :: pos <= k < ReadWord(s, pos).value.next - 1 ==> s[k] != SPACE
  {
    IndexOfSkips(s, pos, SPACE);
  }

  /** Words the format can carry unchanged: no space inside (the reader stops at
      the first one) and no white space at either end (the reader trims it). */
  predicate PlainWord(w: Word) {
    SPACE !in w && SpaceWidth(w, 0) == 0 && TrailingSpaceWidth(w) == 0
  }

  /** Appending an ASCII byte cannot complete a white-space rune at the front,
      since the later bytes of a multi-byte space are all 0x80 or more. */
  lemma NoLeadingSpaceAfterAppend(w: Word, b: byte)
    requires SpaceWidth(w, 0) == 0 && |w| > 0 && b < 0x80
    ensures SpaceWidth(w + [b], 0) == 0
  {
  }

  lemma TrimPlainWordSpace(w: Word)
    requires PlainWord(w)
    ensures TrimSpace(w + [SPACE]) == w
  {
    var s := w + [SPACE];
    assert s[|s| - 1..] == [SPACE];
    assert s[..|s| - 1] == w;
    if |w| == 0 {
      assert SpaceWidth(s, 0) == 1;
      assert s[1..] == [];
    } else {
      NoLeadingSpaceAfterAppend(w, SPACE);
      assert TrimLeft(s) == s;
      assert TrailingSpaceWidth(s) == 1;
      assert TrimRight(w) == w;
    }
  }

  lemma TrimNewlinePlainWordSpace(w: Word)
    requires PlainWord(w)
    ensures TrimSpace([NEWLINE] + w + [SPACE]) == w
  {
    var s := [NEWLINE] + w + [SPACE];
    assert s[0..1] == [NEWLINE];
    assert SpaceWidth(s, 0) == 1;
    assert s[1..] == w + [SPACE];
    TrimPlainWordSpace(w);
  }

  /** Every word the reader returns is plain: it stops at the first space and
      trims white space from both ends. */
  lemma ReadWordIsPlain(s: seq<byte>, pos: nat)
    requires pos <= |s| && ReadWord(s, pos).Some?
    ensures PlainWord(ReadWord(s, pos).value.value)
  {
    var j := IndexOf(s, pos, SPACE);
    var u := s[pos..j + 1];
    IndexOfSkips(s, pos, SPACE);
    assert forall k :: 0 <= k < |u| - 1 ==> u[k] == s[pos + k];
    TrimmedUpToSpace(u);
  }

  /** Trimming a string whose only space is its last byte leaves no space. */
  lemma TrimmedUpToSpace(u: seq<byte>)
    requires |u| > 0 && u[|u| - 1] == SPACE
    requires forall k :: 0 <= k < |u| - 1 ==> u[k] != SPACE
    ensures PlainWord(TrimSpace(u))
  {
    var r := TrimSpace(u);
    TrimSpaceTrims(u);
    var a := |u| - |TrimLeft(u)|;
    assert |r| == 0 || r[|r| - 1] == u[a + |r| - 1];
    assert a + |r| < |u| || |r| == 0;
    forall t | 0 <= t < |r|
      ensures r[t] != SPACE
    {
      assert r[t] == u[a + t];
    }
  }

  /** A plain word followed by a space is read back exactly. */
  lemma ReadPlainWord(s: seq<byte>, pos: nat, w: Word)
    requires PlainWord(w) && BytesAt(s, pos, w) && pos + |w| < |s| && s[pos + |w|] == SPACE
    ensures ReadWord(s, pos) == Some(Read(w, pos + |w| + 1))
  {
    var j := pos + |w|;
    assert s[pos..j] == w;
    assert s[pos..j + 1] == w + [SPACE];
    ReadWordAt(s, pos, j);
    TrimPlainWordSpace(w);
  }

  /** The lenient loader leaves the newline after a record unread: the next word
      is read from that newline on, and trimming drops it. */
  lemma ReadPlainWordAfterNewline(s: seq<byte>, pos: nat, w: Word)
    requires PlainWord(w) && pos < |s| && s[pos] == NEWLINE
    requires BytesAt(s, pos + 1, w) && pos + 1 + |w| < |s| && s[pos + 1 + |w|] == SPACE
    ensures ReadWord(s, pos) == Some(Read(w, pos + |w| + 2))
  {
    var j := pos + 1 + |w|;
    assert s[pos + 1..j] == w;
    assert s[pos..j] == [NEWLINE] + w;
    assert s[pos..j + 1] == [NEWLINE] + w + [SPACE];
    ReadWordAt(s, pos, j);
    TrimNewlinePlainWordSpace(w);
  }

  /** ReadWord stops at the first space. */
  lemma ReadWordAt(s: seq<byte>, i: nat, j: nat)
    requires i <= j < |s| && s[j] == SPACE
    requires SPACE !in s[i..j]
    ensures ReadWord(s, i) == Some(Read(TrimSpace(s[i..j + 1]), j + 1))
  {
    forall k | i <= k < j ensures s[k] != SPACE {
      assert s[k] == s[i..j][k - i];
    }
    IndexOfFirst(s, i, SPACE, j);
  }


  // ---------------------------------------------------------------------------
  // The header: fmt.Fscanf(reader, "%d %d\n", &vocabSize, &vectorSize)
  // ---------------------------------------------------------------------------

  /** Index after the white space at `i` that `fmt` skips between items: every
      white-space rune except the newline. */
  function SkipBlanks(s: seq<byte>, i: nat): (j: nat)
    requires i <= |s|
    ensures i <= j <= |s|
    ensures j < |s| ==> s[j] == NEWLINE || SpaceWidth(s, j) == 0
    decreases |s| - i
  {
    if i < |s| && s[i] != NEWLINE && SpaceWidth(s, i) > 0 then SkipBlanks(s, i + SpaceWidth(s, i)) else i
  }

  /** Outcome of one scanning step: success or failure, with the read position
      the step leaves behind (the lenient loader goes on reading from there). */
  datatype Step<T> = Scanned(value: T, next: nat) | Failed(next: nat)
  {
    function Next(): nat {
      match this
      case Scanned(_, n) => n
      case Failed(n) => n
    }
  }

  /** The `%d` verb: skip blanks (a newline is an error and is consumed), an optional
      sign, then at least one decimal digit; the value must fit in Go's `int`. */
  function ScanInt(s: seq<byte>, i: nat): (r: Step<int>)
    requires i <= |s|
    ensures i <= r.Next() <= |s|
    ensures r.Scanned? ==> MIN_INT <= r.value <= MAX_INT
  {
    var j := SkipBlanks(s, i);
    if j == |s| then Failed(j)
    else if s[j] == NEWLINE then Failed(j + 1)
    else
      var k := if s[j] == PLUS || s[j] == MINUS then j + 1 else j;
      var e := DigitEnd(s, k);
      if e == k then Failed(k)
      else
        var magnitude: int := DigitsValue(s[k..e]);
        var v: int := if s[j] == MINUS then -magnitude else magnitude;
        if v < MIN_INT || v > MAX_INT then Failed(e) else Scanned(v, e)
  }

  /** A space in the format between two verbs: end of input, or at least one blank
      (which are all skipped). A newline, or any other rune, is consumed and fails. */
  function MatchSpace(s: seq<byte>, i: nat): (r: Step<()>)
    requires i <= |s|
    ensures i <= r.Next() <= |s|
  {
    if i == |s| then Scanned((), i)
    else if s[i] == NEWLINE then Failed(i + 1)
    else if SpaceWidth(s, i) == 0 then Failed(i + RuneWidth(s, i))
    else Scanned((), SkipBlanks(s, i))
  }

  /** The newline that ends the format: blanks, then a newline or the end of input;
      any other rune is consumed and fails. */
  function MatchNewline(s: seq<byte>, i: nat): (r: Step<()>)
    requires i <= |s|
    ensures i <= r.Next() <= |s|
  {
    var j := SkipBlanks(s, i);
    if j == |s| then Scanned((), j)
    else if s[j] == NEWLINE then Scanned((), j + 1)
    else Failed(j + RuneWidth(s, j))
  }

  /** What `Fscanf` leaves behind: the two variables (a variable the scan did not
      reach keeps its zero value), whether the whole format matched, and where the
      reader stands. */
  datatype Header = Header(vocab: int, dim: int, complete: bool, next: nat)

  function ScanHeader(s: seq<byte>): (h: Header)
    ensures h.next <= |s|
    ensures h.vocab != 0 ==> ScanInt(s, 0).Scanned?
  {
    match ScanInt(s, 0)
    case Failed(p) => Header(0, 0, false, p)
    case Scanned(v, p) => ScanAfterVocab(s, v, p)
  }

  /** The header scan once the vocabulary size `v` is read, from index `p`. */
  function ScanAfterVocab(s: seq<byte>, v: int, p: nat): (h: Header)
    requires p <= |s|
    ensures h.vocab == v && h.next <= |s|
  {
    match MatchSpace(s, p)
    case Failed(q) => Header(v, 0, false, q)
    case Scanned(_, q) => ScanDimension(s, v, q)
  }

  /** The header scan from the dimension on. */
  function ScanDimension(s: seq<byte>, v: int, q: nat): (h: Header)
    requires q <= |s|
    ensures h.vocab == v && h.next <= |s|
  {
    match ScanInt(s, q)
    case Failed(r) => Header(v, 0, false, r)
    case Scanned(d, r) => ScanHeaderEnd(s, v, d, r)
  }

  /** The header scan once both numbers are read: the closing newline. */
  function ScanHeaderEnd(s: seq<byte>, v: int, d: int, r: nat): (h: Header)
    requires r <= |s|
    ensures h.vocab == v && h.dim == d && h.next <= |s|
  {
    match MatchNewline(s, r)
    case Failed(t) => Header(v, d, false, t)
    case Scanned(_, t) => Header(v, d, true, t)
  }

  /** `fmt.Fprintf(writer, "%d %d\n", vocab, dim)`. */
  function FormatHeader(vocab: int, dim: int): seq<byte> {
    FormatInt(vocab) + [SPACE] + FormatInt(dim) + [NEWLINE]
  }

  /** A digit is not white space. */
  lemma DigitNotSpace(s: seq<byte>, i: nat)
    requires i < |s| && IsDigit(s[i])
    ensures SpaceWidth(s, i) == 0
  {
  }

  /** `%d` reads back a printed non-negative number when a non-digit (or the end) follows it. */
  lemma ScanIntOfFormatNat(s: seq<byte>, i: nat, n: nat)
    requires n <= MAX_INT
    requires i + |FormatNat(n)| <= |s| && s[i..i + |FormatNat(n)|] == FormatNat(n)
    requires i + |FormatNat(n)| < |s| ==> !IsDigit(s[i + |FormatNat(n)|])
    ensures ScanInt(s, i) == Scanned(n, i + |FormatNat(n)|)
  {
    var f := FormatNat(n);
    var e := i + |f|;
    assert s[i] == f[0];
    DigitNotSpace(s, i);
    assert SkipBlanks(s, i) == i;
    DigitEndOfRun(s, i, e);
    DigitsValueOfFormatNat(n);
  }

  /** The header the writers print is read back whole, whatever follows it. */
  lemma ScanHeaderOfFormat(s: seq<byte>, vocab: nat, dim: nat)
    requires vocab <= MAX_INT && dim <= MAX_INT
    requires BytesAt(s, 0, FormatHeader(vocab, dim))
    ensures ScanHeader(s) == Header(vocab, dim, true, |FormatHeader(vocab, dim)|)
  {
    var a, b := FormatNat(vocab), FormatNat(dim);
    HeaderBytes(s, FormatHeader(vocab, dim), a, b);
    ScanHeaderAt(s, vocab, dim, a, b);
  }

  /** The pieces of a printed header, byte by byte. */
  lemma HeaderBytes(s: seq<byte>, h: seq<byte>, a: seq<byte>, b: seq<byte>)
    requires h == a + [SPACE] + b + [NEWLINE] && BytesAt(s, 0, h)
    ensures |a| + |b| + 1 < |s|
    ensures s[0..|a|] == a && s[|a|] == SPACE
    ensures s[|a| + 1..|a| + 1 + |b|] == b && s[|a| + 1 + |b|] == NEWLINE
  {
    assert s[..|h|] == h;
    assert s[0..|a|] == a by {
      forall i | 0 <= i < |a| ensures s[i] == a[i] { assert s[i] == h[i]; }
    }
    assert s[|a|] == SPACE by { assert s[|a|] == h[|a|]; }
    assert s[|a| + 1..|a| + 1 + |b|] == b by {
      forall i | 0 <= i < |b| ensures s[|a| + 1 + i] == b[i] { assert s[|a| + 1 + i] == h[|a| + 1 + i]; }
    }
    assert s[|a| + 1 + |b|] == h[|a| + 1 + |b|];
  }

  /** The header scan over a vocabulary size, a space, a dimension and a newline. */
  lemma ScanHeaderAt(s: seq<byte>, vocab: nat, dim: nat, a: seq<byte>, b: seq<byte>)
    requires vocab <= MAX_INT && dim <= MAX_INT && a == FormatNat(vocab) && b == FormatNat(dim)
    requires |a| + |b| + 1 < |s|
    requires s[0..|a|] == a && s[|a|] == SPACE
    requires s[|a| + 1..|a| + 1 + |b|] == b && s[|a| + 1 + |b|] == NEWLINE
    ensures ScanHeader(s) == Header(vocab, dim, true, |a| + |b| + 2)
  {
    var p := |a|;
    ScanAfterVocabAt(s, vocab, dim, p);
    ScanIntOfFormatNat(s, 0, vocab);
    assert ScanHeader(s) == ScanAfterVocab(s, vocab, p);
  }

  lemma ScanAfterVocabAt(s: seq<byte>, vocab: int, dim: nat, p: nat)
    requires dim <= MAX_INT
    requires var b := FormatNat(dim);
      && p + |b| + 1 < |s| && s[p] == SPACE
      && s[p + 1..p + 1 + |b|] == b && s[p + 1 + |b|] == NEWLINE
    ensures ScanAfterVocab(s, vocab, p) == Header(vocab, dim, true, p + |FormatNat(dim)| + 2)
  {
    var b := FormatNat(dim);
    assert s[p + 1] == b[0];
    MatchSingleSpace(s, p);
    ScanDimensionAt(s, vocab, dim, p + 1);
  }

  lemma ScanDimensionAt(s: seq<byte>, vocab: int, dim: nat, q: nat)
    requires dim <= MAX_INT
    requires var b := FormatNat(dim);
      && q + |b| < |s| && s[q..q + |b|] == b && s[q + |b|] == NEWLINE
    ensures ScanDimension(s, vocab, q) == Header(vocab, dim, true, q + |FormatNat(dim)| + 1)
  {
    ScanIntOfFormatNat(s, q, dim);
    MatchNewlineAt(s, q + |FormatNat(dim)|);
  }

  lemma MatchSingleSpace(s: seq<byte>, p: nat)
    requires p + 1 < |s| && s[p] == SPACE && IsDigit(s[p + 1])
    ensures MatchSpace(s, p) == Scanned((), p + 1)
  {
    DigitNotSpace(s, p + 1);
    assert SkipBlanks(s, p + 1) == p + 1;
  }

  lemma MatchNewlineAt(s: seq<byte>, r: nat)
    requires r < |s| && s[r] == NEWLINE
    ensures MatchNewline(s, r) == Scanned((), r + 1)
  {
  }

  /** One record as the writers produce it: the word, a space, the vector's
      bytes and a newline. */
  function EncodeRecord(w: Word, v: Vector): (r: seq<byte>)
    ensures |r| == |w| + 4 * |v| + 2
  {
    w + [SPACE] + EncodeVector(v) + [NEWLINE]
  }

  /** Records written one after the other. */
  function EncodeRecords(entries: seq<(Word, Vector)>): seq<byte>
  {
    if entries == [] then [] else EncodeRecord(entries[0].0, entries[0].1) + EncodeRecords(entries[1..])
  }

  /** Every entry's word is plain and its vector has `dim` components, stated
      entry by entry. */
  predicate Uniform(entries: seq<(Word, Vector)>, dim: nat)
    decreases |entries|
  {
    entries == [] || (PlainWord(entries[0].0) && |entries[0].1| == dim && Uniform(entries[1..], dim))
  }

  lemma {:induction false} UniformOfAll(entries: seq<(Word, Vector)>, dim: nat)
    requires forall k :: 0 <= k < |entries| ==> PlainWord(entries[k].0) && |entries[k].1| == dim
    ensures Uniform(entries, dim)
    decreases |entries|
  {
    if entries != [] {
      assert forall k :: 0 <= k < |entries| - 1 ==> entries[1..][k] == entries[k + 1];
      UniformOfAll(entries[1..], dim);
    }
  }

  /** Storing the entries in order into a map: a later entry for a word
      replaces an earlier one. */
  function Store(acc: map<Word, Vector>, entries: seq<(Word, Vector)>): map<Word, Vector>
    decreases |entries|
  {
    if entries == [] then acc else Store(acc[entries[0].0 := entries[0].1], entries[1..])
  }

  /** For a word stored more than once, the last entry wins: an entry no
      later entry repeats the word of is the word's value in the end. */
  lemma {:induction false} StoreLastWins(acc: map<Word, Vector>, entries: seq<(Word, Vector)>, k: nat)
    requires k < |entries|
    requires forall j :: k < j < |entries| ==> entries[j].0 != entries[k].0
    ensures entries[k].0 in Store(acc, entries) && Store(acc, entries)[entries[k].0] == entries[k].1
    decreases |entries|
  {
    var rest := entries[1..];
    if k == 0 {
      StoreUntouched(acc[entries[0].0 := entries[0].1], rest, entries[0].0);
    } else {
      forall j | k - 1 < j < |rest|
        ensures rest[j].0 != rest[k - 1].0
      {
        assert rest[j] == entries[j + 1];
      }
      StoreLastWins(acc[entries[0].0 := entries[0].1], rest, k - 1);
    }
  }

  /** A word no entry names keeps its value, or stays absent. */
  lemma {:induction false} StoreUntouched(acc: map<Word, Vector>, entries: seq<(Word, Vector)>, w: Word)
    requires forall j :: 0 <= j < |entries| ==> entries[j].0 != w
    ensures (w in Store(acc, entries)) == (w in acc)
    ensures w in acc ==> Store(acc, entries)[w] == acc[w]
    decreases |entries|
  {
    if entries != [] {
      var rest := entries[1..];
      assert forall j :: 0 <= j < |rest| ==> rest[j] == entries[j + 1];
      StoreUntouched(acc[entries[0].0 := entries[0].1], rest, w);
    }
  }

  /** One record written in `s` from index `pos` on: the word, a space, the
      vector's bytes and a newline. */
  predicate RecordAt(s: seq<byte>, pos: nat, w: Word, v: Vector) {
    && BytesAt(s, pos, w)
    && pos + |w| < |s| && s[pos + |w|] == SPACE
    && BytesAt(s, pos + |w| + 1, EncodeVector(v))
    && pos + |w| + 1 + 4 * |v| < |s| && s[pos + |w| + 1 + 4 * |v|] == NEWLINE
  }

  /** The records are written one after the other in `s`, the first at `pos`. */
  predicate RecordsAt(s: seq<byte>, pos: nat, entries: seq<(Word, Vector)>)
    decreases |entries|
  {
    entries == [] ||
      (RecordAt(s, pos, entries[0].0, entries[0].1)
       && RecordsAt(s, pos + |EncodeRecord(entries[0].0, entries[0].1)|, entries[1..]))
  }

  /** Bytes found at an index are found piece by piece. */
  lemma BytesAtSplit(s: seq<byte>, pos: nat, a: seq<byte>, b: seq<byte>)
    requires BytesAt(s, pos, a + b)
    ensures BytesAt(s, pos, a) && BytesAt(s, pos + |a|, b)
  {
    assert s[pos..pos + |a|] == s[pos..pos + |a| + |b|][..|a|];
    assert s[pos + |a|..pos + |a| + |b|] == s[pos..pos + |a| + |b|][|a|..];
  }

  /** The bytes of a record are that record. */
  lemma RecordAtOfBytes(s: seq<byte>, pos: nat, w: Word, v: Vector)
    requires BytesAt(s, pos, EncodeRecord(w, v))
    ensures RecordAt(s, pos, w, v)
  {
    var e := EncodeVector(v);
    BytesAtSplit(s, pos, w + [SPACE] + e, [NEWLINE]);
    BytesAtSplit(s, pos, w + [SPACE], e);
    BytesAtSplit(s, pos, w, [SPACE]);
    var p := pos + |w|;
    assert s[p] == SPACE by { assert s[p] == s[p..p + 1][0]; }
    var r := p + 1 + |e|;
    assert s[r] == NEWLINE by { assert s[r] == s[r..r + 1][0]; }
  }

  /** The bytes of records written one after the other are those records. */
  lemma {:induction false} RecordsAtOfBytes(s: seq<byte>, pos: nat, entries: seq<(Word, Vector)>)
    requires BytesAt(s, pos, EncodeRecords(entries))
    ensures RecordsAt(s, pos, entries)
    decreases |entries|
  {
    if entries != [] {
      var (w, v) := entries[0];
      BytesAtSplit(s, pos, EncodeRecord(w, v), EncodeRecords(entries[1..]));
      RecordAtOfBytes(s, pos, w, v);
      RecordsAtOfBytes(s, pos + |EncodeRecord(w, v)|, entries[1..]);
    }
  }

  /** `order` lists every word of `m` once: an order a map iteration can take. */
  ghost predicate Enumerates(order: seq<Word>, m: map<Word, Vector>) {
    && (forall i, j :: 0 <= i < j < |order| ==> order[i] != order[j])
    && (forall w :: w in m <==> w in order)
  }

  /** The entries of `m` in the order `order` lists the words. */
  function MapEntries(m: map<Word, Vector>, order: seq<Word>): (r: seq<(Word, Vector)>)
    requires forall i :: 0 <= i < |order| ==> order[i] in m
    ensures |r| == |order|
    ensures forall i :: 0 <= i < |order| ==> r[i] == (order[i], m[order[i]])
  {
    seq(|order|, i requires 0 <= i < |order| => (order[i], m[order[i]]))
  }

  /** Listing every word once takes as many words as the map holds. */
  lemma EnumerationLength(order: seq<Word>, m: map<Word, Vector>)
    requires Enumerates(order, m)
    ensures |order| == |m|
  {
    DistinctCardinality(order);
    assert (set w | w in order) == m.Keys;
  }

  lemma {:induction false} DistinctCardinality(order: seq<Word>)
    requires forall i, j :: 0 <= i < j < |order| ==> order[i] != order[j]
    ensures |set w | w in order| == |order|
  {
    if order != [] {
      var rest := order[1..];
      DistinctCardinality(rest);
      assert (set w | w in order) == {order[0]} + (set w | w in rest);
      assert order[0] !in rest by {
        forall k | 0 <= k < |rest| ensures rest[k] != order[0] {
          assert rest[k] == order[k + 1];
        }
      }
    }
  }

  /** Storing the entries of `m` listed in `order` into a part of `m` gives
      `m` restricted to the words stored. */
  lemma {:induction false} StoreMapEntries(acc: map<Word, Vector>, m: map<Word, Vector>, order: seq<Word>)
    requires forall i :: 0 <= i < |order| ==> order[i] in m
    requires forall w :: w in acc ==> w in m && acc[w] == m[w]
    ensures Store(acc, MapEntries(m, order)) == map w | w in m && (w in acc || w in order) :: m[w]
    decreases |order|
  {
    if order != [] {
      var w := order[0];
      assert MapEntries(m, order)[1..] == MapEntries(m, order[1..]);
      StoreMapEntries(acc[w := m[w]], m, order[1..]);
      var later := map u | u in m && (u in acc[w := m[w]] || u in order[1..]) :: m[u];
      assert later == map u | u in m && (u in acc || u in order) :: m[u] by {
        assert forall u :: u in order <==> u == w || u in order[1..];
      }
    }
  }

  /** Storing every entry of `m`, in any order, rebuilds `m`. */
  lemma StoreEnumeration(m: map<Word, Vector>, order: seq<Word>)
    requires Enumerates(order, m)
    ensures Store(map[], MapEntries(m, order)) == m
  {
    StoreMapEntries(map[], m, order);
  }
}
