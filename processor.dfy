/** The line matcher (modules/processor/processor.go): every token of every
    input line is scored against the query; the first token whose score is
    above the threshold makes the line a match, which is printed highlighted
    together with the lines before and after it. The segmenter, the
    lower-casing and the cosine are parameters of the model, and the output
    is the sequence of printed items. */
module Processor {
  import opened Wrappers
  import opened Bytes
  import opened Word2VecFormat
  import opened GoStrings
  import opened Utils
  import opened Model
  import opened Similarity

  /** The arguments of `ProcessLineByLine` other than the input, and the
      functions it calls into: the word segmenter, `strings.ToLower` and
      the similarity of two vectors. */
  datatype Settings = Settings(
    query: seq<byte>,
    model: Word2VecModel,
    threshold: real,
    contextBefore: int,
    contextAfter: int,
    printLineNumbers: bool,
    ignoreCase: bool,
    segment: seq<byte> -> seq<seq<byte>>,
    toLower: seq<byte> -> seq<byte>,
    cosine: (Vector, Vector) -> Score)

  /** A line with its 1-based number. */
  datatype Numbered = Numbered(text: seq<byte>, number: int)

  /** What the matcher prints, in order: the `Similarity:` line, a line
      through `PrintLine`, and the `--` separator. */
  datatype Emit = SimilarityLine(score: Score) | Line(line: Numbered) | Separator

  /** The first token of a line above the threshold, and its score. */
  datatype Hit = Hit(token: seq<byte>, score: Score)

  /** The context lines kept before a match, as two parallel slices. */
  datatype Buffer = Buffer(texts: seq<seq<byte>>, numbers: seq<int>)

  /** One match: its score, the buffered lines before it, the highlighted
      line and the lines after it. */
  datatype Group = Group(score: Score, before: seq<Numbered>, matched: Numbered, after: seq<Numbered>)

  function Min(a: int, b: int): int {
    if a < b then a else b
  }

  /** The form of a token that is looked up and scored. */
  function Key(st: Settings, token: seq<byte>): seq<byte> {
    if st.ignoreCase then st.toLower(token) else token
  }

  /** The embedding lookup as the similarity cache sees it. A negative model
      size never reaches it: every lookup is made with `size >= 0`. */
  function Embedder(model: Word2VecModel): seq<byte> -> Vector {
    t => if t in model.vectors || model.size >= 0 then GetVectorEmbedding(t, model) else []
  }

  /** The similarity of a token to the query, each looked up in its key form. */
  function TokenScore(st: Settings, token: seq<byte>): Score
    requires st.model.size >= 0
  {
    st.cosine(GetVectorEmbedding(Key(st, st.query), st.model), GetVectorEmbedding(Key(st, token), st.model))
  }

  /** The token loop: the first token whose score is above the threshold. */
  function FirstHit(st: Settings, tokens: seq<seq<byte>>): Option<Hit>
    requires st.model.size >= 0
  {
    if tokens == [] then None
    else if Above(TokenScore(st, tokens[0]), st.threshold) then Some(Hit(tokens[0], TokenScore(st, tokens[0])))
    else FirstHit(st, tokens[1..])
  }

  /** The first hit of a line's tokens, if any. */
  function LineHit(st: Settings, line: seq<byte>): Option<Hit>
    requires st.model.size >= 0
  {
    FirstHit(st, st.segment(line))
  }

  /** Every occurrence of the token in the line, wrapped in red. */
  function Highlight(line: seq<byte>, token: seq<byte>): seq<byte> {
    ReplaceAll(line, token, ColorText(token, "red"))
  }

  /** The buffer after a line that does not match: with a positive
      `contextBefore` the line is appended and the oldest line dropped once
      there are more than `contextBefore`. */
  function BufferLine(st: Settings, buffer: Buffer, line: Numbered): (b: Buffer)
    requires |buffer.texts| == |buffer.numbers|
    ensures |b.texts| == |b.numbers|
  {
    if st.contextBefore > 0 then
      var texts := buffer.texts + [line.text];
      var numbers := buffer.numbers + [line.number];
      if |texts| > st.contextBefore then Buffer(texts[1..], numbers[1..]) else Buffer(texts, numbers)
    else buffer
  }

  /** The buffered lines, oldest first, each with its own number. */
  function Entries(buffer: Buffer): (r: seq<Numbered>)
    requires |buffer.texts| == |buffer.numbers|
  {
    seq(|buffer.texts|, k requires 0 <= k < |buffer.texts| => Numbered(buffer.texts[k], buffer.numbers[k]))
  }

  /** `count` lines from index `from`, numbered from `from + 1`. */
  function Numbering(lines: seq<seq<byte>>, from: nat, count: nat): (r: seq<Numbered>)
    requires from + count <= |lines|
  {
    seq(count, k requires 0 <= k < count => Numbered(lines[from + k], from + k + 1))
  }

  /** The first hit of every line. */
  function Hits(st: Settings, lines: seq<seq<byte>>): (r: seq<Option<Hit>>)
    requires st.model.size >= 0
    ensures |r| == |lines|
  {
    seq(|lines|, i requires 0 <= i < |lines| => LineHit(st, lines[i]))
  }

  /** The matches from index `pos` on, `hits` giving each line's first hit
      and `buffer` holding the lines before. A match takes up to
      `contextAfter` of the following lines, which are not scored, and
      empties the buffer. */
  function Groups(st: Settings, lines: seq<seq<byte>>, hits: seq<Option<Hit>>, pos: nat, buffer: Buffer): seq<Group>
    requires |hits| == |lines|
    requires pos <= |lines| && |buffer.texts| == |buffer.numbers|
    decreases |lines| - pos
  {
    if pos == |lines| then []
    else
      match hits[pos]
      case None => Groups(st, lines, hits, pos + 1, BufferLine(st, buffer, Numbered(lines[pos], pos + 1)))
      case Some(hit) =>
        [MatchGroup(st, lines, pos, buffer, hit)] + Groups(st, lines, hits, AfterEnd(st, lines, pos), Buffer([], []))
  }

  /** The index just after the lines printed after a match at `pos`. */
  function AfterEnd(st: Settings, lines: seq<seq<byte>>, pos: nat): (r: nat)
    requires pos < |lines|
  {
    pos + 1 + Min(Count(st.contextAfter), |lines| - pos - 1)
  }

  /** The match at `pos`: the buffered lines, the highlighted line, and the
      lines after it up to `AfterEnd`. */
  function MatchGroup(st: Settings, lines: seq<seq<byte>>, pos: nat, buffer: Buffer, hit: Hit): Group
    requires pos < |lines| && |buffer.texts| == |buffer.numbers|
  {
    Group(hit.score, Entries(buffer), Numbered(Highlight(lines[pos], hit.token), pos + 1),
          Numbering(lines, pos + 1, AfterEnd(st, lines, pos) - pos - 1))
  }

  /** Printing lines. */
  function Lines(ns: seq<Numbered>): (r: seq<Emit>)
  {
    seq(|ns|, k requires 0 <= k < |ns| => Line(ns[k]))
  }

  /** What one match prints. */
  function Emits(g: Group): (r: seq<Emit>)
  {
    [SimilarityLine(g.score)] + Lines(g.before) + [Line(g.matched)] + Lines(g.after) + [Separator]
  }

  /** What the matches print, one after the other. */
  function Render(groups: seq<Group>): seq<Emit>
  {
    if groups == [] then [] else Emits(groups[0]) + Render(groups[1..])
  }

  /** The bytes printed for an item; the `%.4f` formatting of a score is a
      parameter. */
  function Text(e: Emit, printLineNumbers: bool, formatScore: Score -> seq<byte>): seq<byte>
  {
    match e
    case SimilarityLine(s) => Ascii("Similarity: ") + formatScore(s) + [NEWLINE]
    case Line(n) => PrintLine(n.text, n.number, printLineNumbers)
    case Separator => Ascii("--\n")
  }

  /** The first hit is the first token above the threshold, with its own
      score; there is none exactly when no token is above the threshold. */
  lemma {:induction false} FirstHitIsFirst(st: Settings, tokens: seq<seq<byte>>)
    requires st.model.size >= 0
    ensures FirstHit(st, tokens).None? <==>
      forall i :: 0 <= i < |tokens| ==> !Above(TokenScore(st, tokens[i]), st.threshold)
    ensures FirstHit(st, tokens).Some? ==> exists i :: (
      && 0 <= i < |tokens|
      && FirstHit(st, tokens).value == Hit(tokens[i], TokenScore(st, tokens[i]))
      && Above(TokenScore(st, tokens[i]), st.threshold)
      && forall j :: 0 <= j < i ==> !Above(TokenScore(st, tokens[j]), st.threshold))
    decreases |tokens|
  {
    if tokens != [] {
      var rest := tokens[1..];
      FirstHitIsFirst(st, rest);
      assert forall i :: 0 < i < |tokens| ==> tokens[i] == rest[i - 1];
      if !Above(TokenScore(st, tokens[0]), st.threshold) && FirstHit(st, rest).Some? {
        var i :| 0 <= i < |rest| && FirstHit(st, rest).value == Hit(rest[i], TokenScore(st, rest[i]))
          && Above(TokenScore(st, rest[i]), st.threshold)
          && forall j :: 0 <= j < i ==> !Above(TokenScore(st, rest[j]), st.threshold);
        assert tokens[i + 1] == rest[i];
      }
    }
  }

  /** The lines `ProcessLineByLine` holds in its buffer at index `pos`, the
      last match having printed up to line `low`: the two slices have equal
      length, hold the lines just before `pos`, none of which has a hit, and
      there are exactly as many as `contextBefore` allows among the lines
      after line `low` (none when `contextBefore` is 0). */
  ghost predicate BufferHolds(st: Settings, lines: seq<seq<byte>>, hits: seq<Option<Hit>>, pos: nat,
                              buffer: Buffer, low: nat)
    requires |hits| == |lines| && pos <= |lines|
  {
    && |buffer.texts| == |buffer.numbers| == Min(Count(st.contextBefore), pos - low)
    && low + |buffer.numbers| <= pos
    && Window(lines, hits, pos, buffer.texts, buffer.numbers)
  }

  /** The first and the last line a match prints. */
  function First(g: Group): int { g.matched.number - |g.before| }
  function Last(g: Group): int { g.matched.number + |g.after| }

  /** What a match prints, line by line: the matched line is the highlight
      of its line's first hit, with that hit's score; before it, at most
      `contextBefore` lines without a hit (how many is fixed by `InOrder`),
      verbatim and numbered
      consecutively up to it; after it, verbatim, the next
      `min(contextAfter, lines left)` lines. */
  ghost predicate Placed(st: Settings, lines: seq<seq<byte>>, hits: seq<Option<Hit>>, g: Group)
    requires |hits| == |lines|
  {
    var n := g.matched.number;
    && 1 <= n <= |lines|
    && hits[n - 1].Some?
    && g.score == hits[n - 1].value.score
    && g.matched.text == Highlight(lines[n - 1], hits[n - 1].value.token)
    && |g.before| <= Count(st.contextBefore) && Preceded(lines, hits, n, g.before)
    && |g.after| == Min(Count(st.contextAfter), |lines| - n) && Followed(lines, n, g.after)
  }

  /** `before` is the lines just before line `n` (1-based), numbered, none
      with a hit. */
  ghost predicate Preceded(lines: seq<seq<byte>>, hits: seq<Option<Hit>>, n: int, before: seq<Numbered>)
    requires |hits| == |lines| && n <= |lines|
  {
    && |before| < n
    && forall k :: 0 <= k < |before| ==>
      && before[k] == Numbered(lines[n - 1 - |before| + k], n - |before| + k)
      && hits[n - 1 - |before| + k].None?
  }

  /** `after` is the lines just after line `n` (1-based), numbered. */
  ghost predicate Followed(lines: seq<seq<byte>>, n: nat, after: seq<Numbered>)
    requires n + |after| <= |lines|
  {
    forall k :: 0 <= k < |after| ==> after[k] == Numbered(lines[n + k], n + k + 1)
  }

  /** The last line printed before match `j`: that of the previous match,
      or `low` for the first one. */
  function PrevEnd(groups: seq<Group>, j: nat, low: nat): int
    requires j < |groups|
  {
    if j == 0 then low else Last(groups[j - 1])
  }

  /** The matches are each placed as above, come in input order, and print
      no line twice: each starts after the previous one ends, the first
      after line `low`. Each prints `min(contextBefore, lines between)`
      lines before it, the lines between being those after the previous
      match's last line (or after `low`). */
  ghost predicate InOrder(st: Settings, lines: seq<seq<byte>>, hits: seq<Option<Hit>>, groups: seq<Group>, low: nat)
    requires |hits| == |lines|
  {
    AllPlaced(st, lines, hits, groups, low) && Ordered(groups) && BeforeCounts(st, groups, low)
  }

  /** Every match is placed, after line `low`. */
  ghost predicate AllPlaced(st: Settings, lines: seq<seq<byte>>, hits: seq<Option<Hit>>, groups: seq<Group>, low: nat)
    requires |hits| == |lines|
  {
    forall j :: 0 <= j < |groups| ==> Placed(st, lines, hits, groups[j]) && low < First(groups[j])
  }

  /** Each match starts after the previous one ends. */
  ghost predicate Ordered(groups: seq<Group>) {
    forall j :: 0 < j < |groups| ==> Last(groups[j - 1]) < First(groups[j])
  }

  /** Each match prints as many lines before it as `contextBefore` allows
      among those since the previous match. */
  ghost predicate BeforeCounts(st: Settings, groups: seq<Group>, low: nat) {
    forall j :: 0 <= j < |groups| ==>
      |groups[j].before| == Min(Count(st.contextBefore), groups[j].matched.number - 1 - PrevEnd(groups, j, low))
  }

  /** The `k`-th line of a window of the `|numbers|` lines before index `p`:
      kept verbatim, numbered from one, without a hit. */
  ghost predicate WindowSlot(lines: seq<seq<byte>>, hits: seq<Option<Hit>>, p: int,
                             texts: seq<seq<byte>>, numbers: seq<int>, k: int)
    requires |hits| == |lines| && |texts| == |numbers|
  {
    var i := p - |numbers| + k;
    0 <= i < |lines| && 0 <= k < |numbers|
    && numbers[k] == i + 1 && texts[k] == lines[i] && hits[i].None?
  }

  /** `texts` and `numbers` are the last `|numbers|` lines before index `p`,
      each numbered, none with a hit. */
  ghost predicate Window(lines: seq<seq<byte>>, hits: seq<Option<Hit>>, p: nat, texts: seq<seq<byte>>, numbers: seq<int>)
    requires |hits| == |lines| && p <= |lines|
  {
    && |texts| == |numbers| <= p
    && forall k :: 0 <= k < |numbers| ==> WindowSlot(lines, hits, p, texts, numbers, k)
  }

  /** A line without a hit extends the window of the lines before it. */
  lemma WindowAppend(lines: seq<seq<byte>>, hits: seq<Option<Hit>>, pos: nat, texts: seq<seq<byte>>, numbers: seq<int>)
    requires |hits| == |lines| && pos < |lines|
    requires Window(lines, hits, pos, texts, numbers) && hits[pos].None?
    ensures Window(lines, hits, pos + 1, texts + [lines[pos]], numbers + [pos + 1])
  {
    var ts, ns := texts + [lines[pos]], numbers + [pos + 1];
    var q := pos + 1;
    assert |ns| == |numbers| + 1 && |ts| == |texts| + 1;
    forall k | 0 <= k < |ns|
      ensures WindowSlot(lines, hits, q, ts, ns, k)
    {
      if k < |numbers| {
        assert WindowSlot(lines, hits, pos, texts, numbers, k);
        assert ns[k] == numbers[k] && ts[k] == texts[k];
      } else {
        assert ns[k] == pos + 1 && ts[k] == lines[pos];
      }
    }
  }

  /** Dropping the oldest line keeps a window. */
  lemma WindowDrop(lines: seq<seq<byte>>, hits: seq<Option<Hit>>, p: nat, texts: seq<seq<byte>>, numbers: seq<int>)
    requires |hits| == |lines| && p <= |lines|
    requires Window(lines, hits, p, texts, numbers) && |numbers| > 0
    ensures Window(lines, hits, p, texts[1..], numbers[1..])
  {
    var ts, ns := texts[1..], numbers[1..];
    forall k | 0 <= k < |ns|
      ensures WindowSlot(lines, hits, p, ts, ns, k)
    {
      assert WindowSlot(lines, hits, p, texts, numbers, k + 1);
      assert ns[k] == numbers[k + 1] && ts[k] == texts[k + 1];
    }
  }

  /** Scanning a line without a hit keeps the buffer's invariant. */
  lemma BufferLineHolds(st: Settings, lines: seq<seq<byte>>, hits: seq<Option<Hit>>, pos: nat, buffer: Buffer, low: nat)
    requires |hits| == |lines| && pos < |lines|
    requires BufferHolds(st, lines, hits, pos, buffer, low) && hits[pos].None?
    ensures BufferHolds(st, lines, hits, pos + 1, BufferLine(st, buffer, Numbered(lines[pos], pos + 1)), low)
  {
    if st.contextBefore > 0 {
      var texts := buffer.texts + [lines[pos]];
      var numbers := buffer.numbers + [pos + 1];
      WindowAppend(lines, hits, pos, buffer.texts, buffer.numbers);
      var b := BufferLine(st, buffer, Numbered(lines[pos], pos + 1));
      if |texts| > st.contextBefore {
        WindowDrop(lines, hits, pos + 1, texts, numbers);
        assert b == Buffer(texts[1..], numbers[1..]);
      } else {
        assert b == Buffer(texts, numbers);
      }
      assert Window(lines, hits, pos + 1, b.texts, b.numbers);
    }
  }

  /** A match at `pos` is placed, with the buffer's lines before it. */
  lemma GroupPlaced(st: Settings, lines: seq<seq<byte>>, hits: seq<Option<Hit>>, pos: nat, buffer: Buffer, low: nat, hit: Hit)
    requires |hits| == |lines| && pos < |lines|
    requires BufferHolds(st, lines, hits, pos, buffer, low) && hits[pos] == Some(hit)
    ensures var g := MatchGroup(st, lines, pos, buffer, hit);
      && Placed(st, lines, hits, g) && low < First(g) && Last(g) == AfterEnd(st, lines, pos)
      && |g.before| == Min(Count(st.contextBefore), pos - low)
  {
    var g := MatchGroup(st, lines, pos, buffer, hit);
    BeforePlaced(lines, hits, pos, buffer);
    AfterPlaced(st, lines, pos);
    assert g.matched.number == pos + 1 && g.before == Entries(buffer);
  }

  /** The buffered lines printed before a match at `pos` are the lines just
      before it, numbered, none with a hit. */
  lemma BeforePlaced(lines: seq<seq<byte>>, hits: seq<Option<Hit>>, pos: nat, buffer: Buffer)
    requires |hits| == |lines| && pos < |lines|
    requires Window(lines, hits, pos, buffer.texts, buffer.numbers)
    ensures |Entries(buffer)| == |buffer.numbers| && Preceded(lines, hits, pos + 1, Entries(buffer))
  {
    var before := Entries(buffer);
    var b := |buffer.numbers|;
    forall k | 0 <= k < b
      ensures before[k] == Numbered(lines[pos - b + k], pos + 1 - b + k)
      ensures hits[pos - b + k].None?
    {
      assert WindowSlot(lines, hits, pos, buffer.texts, buffer.numbers, k);
    }
  }

  /** The lines printed after a match at `pos` are the lines just after it,
      numbered, up to `AfterEnd`. */
  lemma AfterPlaced(st: Settings, lines: seq<seq<byte>>, pos: nat)
    requires pos < |lines|
    ensures var after := Numbering(lines, pos + 1, AfterEnd(st, lines, pos) - pos - 1);
      |after| == Min(Count(st.contextAfter), |lines| - pos - 1) && Followed(lines, pos + 1, after)
  {
  }

  /** A placed match in front of matches in order after it. */
  lemma InOrderCons(st: Settings, lines: seq<seq<byte>>, hits: seq<Option<Hit>>, g: Group, rest: seq<Group>, low: nat)
    requires |hits| == |lines|
    requires Placed(st, lines, hits, g) && low < First(g) && 0 <= Last(g)
    requires |g.before| == Min(Count(st.contextBefore), g.matched.number - 1 - low)
    requires InOrder(st, lines, hits, rest, Last(g))
    ensures InOrder(st, lines, hits, [g] + rest, low)
  {
    AllPlacedCons(st, lines, hits, g, rest, low);
    OrderedCons(g, rest);
    BeforeCountsCons(st, g, rest, low);
  }

  /** A placed match in front of matches placed after its last line. */
  lemma AllPlacedCons(st: Settings, lines: seq<seq<byte>>, hits: seq<Option<Hit>>, g: Group, rest: seq<Group>, low: nat)
    requires |hits| == |lines|
    requires Placed(st, lines, hits, g) && low < First(g) && 0 <= Last(g)
    requires AllPlaced(st, lines, hits, rest, Last(g))
    ensures AllPlaced(st, lines, hits, [g] + rest, low)
  {
    var gs := [g] + rest;
    forall j | 0 <= j < |gs|
      ensures Placed(st, lines, hits, gs[j]) && low < First(gs[j])
    {
      if j > 0 {
        assert gs[j] == rest[j - 1];
      }
    }
  }

  /** A match ending before the first of matches in order keeps them in order. */
  lemma OrderedCons(g: Group, rest: seq<Group>)
    requires Ordered(rest) && (rest != [] ==> Last(g) < First(rest[0]))
    ensures Ordered([g] + rest)
  {
    var gs := [g] + rest;
    forall j | 0 < j < |gs|
      ensures Last(gs[j - 1]) < First(gs[j])
    {
      assert gs[j] == rest[j - 1];
      if j > 1 {
        assert gs[j - 1] == rest[j - 2];
      }
    }
  }

  /** A match with its own count, in front of matches counted from its last
      line, keeps every count. */
  lemma BeforeCountsCons(st: Settings, g: Group, rest: seq<Group>, low: nat)
    requires 0 <= Last(g)
    requires |g.before| == Min(Count(st.contextBefore), g.matched.number - 1 - low)
    requires BeforeCounts(st, rest, Last(g))
    ensures BeforeCounts(st, [g] + rest, low)
  {
    var gs := [g] + rest;
    forall j | 0 <= j < |gs|
      ensures |gs[j].before| == Min(Count(st.contextBefore), gs[j].matched.number - 1 - PrevEnd(gs, j, low))
    {
      if j > 0 {
        assert gs[j] == rest[j - 1];
        assert PrevEnd(gs, j, low) == PrevEnd(rest, j - 1, Last(g));
      }
    }
  }

  /** Every match found is placed as `Placed` says, and the matches come in
      input order without printing a line twice. */
  lemma {:induction false} GroupsInOrder(st: Settings, lines: seq<seq<byte>>, hits: seq<Option<Hit>>, pos: nat,
                                         buffer: Buffer, low: nat)
    requires |hits| == |lines| && pos <= |lines|
    requires BufferHolds(st, lines, hits, pos, buffer, low)
    ensures InOrder(st, lines, hits, Groups(st, lines, hits, pos, buffer), low)
    decreases |lines| - pos
  {
    if pos < |lines| {
      match hits[pos]
      case None =>
        var next := BufferLine(st, buffer, Numbered(lines[pos], pos + 1));
        BufferLineHolds(st, lines, hits, pos, buffer, low);
        GroupsInOrder(st, lines, hits, pos + 1, next, low);
      case Some(hit) =>
        var end := AfterEnd(st, lines, pos);
        GroupPlaced(st, lines, hits, pos, buffer, low, hit);
        GroupsInOrder(st, lines, hits, end, Buffer([], []), end);
        InOrderCons(st, lines, hits, MatchGroup(st, lines, pos, buffer, hit),
                    Groups(st, lines, hits, end, Buffer([], [])), low);
    }
  }

  /** Line `i` (0-based) is the matched line of a match or one of the lines
      printed after it. */
  ghost predicate Covered(groups: seq<Group>, i: int) {
    exists j :: 0 <= j < |groups| && groups[j].matched.number <= i + 1 <= Last(groups[j])
  }

  /** Every line with a hit that is not printed as context after an earlier
      match is the matched line of some match: no match is missed. */
  lemma {:induction false} GroupsComplete(st: Settings, lines: seq<seq<byte>>, hits: seq<Option<Hit>>, pos: nat,
                                          buffer: Buffer, i: nat)
    requires |hits| == |lines| && pos <= i < |lines|
    requires |buffer.texts| == |buffer.numbers|
    requires hits[i].Some?
    ensures Covered(Groups(st, lines, hits, pos, buffer), i)
    decreases |lines| - pos
  {
    var gs := Groups(st, lines, hits, pos, buffer);
    match hits[pos]
    case None =>
      var next := BufferLine(st, buffer, Numbered(lines[pos], pos + 1));
      GroupsComplete(st, lines, hits, pos + 1, next, i);
      var rest := Groups(st, lines, hits, pos + 1, next);
      var j :| 0 <= j < |rest| && rest[j].matched.number <= i + 1 <= Last(rest[j]);
      assert gs == rest;
      assert gs[j] == rest[j];
    case Some(hit) =>
      var end := AfterEnd(st, lines, pos);
      if i < end {
        assert gs[0] == MatchGroup(st, lines, pos, buffer, hit);
        assert gs[0].matched.number <= i + 1 <= Last(gs[0]);
      } else {
        var rest := Groups(st, lines, hits, end, Buffer([], []));
        GroupsComplete(st, lines, hits, end, Buffer([], []), i);
        var j :| 0 <= j < |rest| && rest[j].matched.number <= i + 1 <= Last(rest[j]);
        assert gs[j + 1] == rest[j];
      }
  }

  /** Each match prints exactly one `Similarity:` line first and exactly one
      `--` line last, with the numbered lines in between. */
  lemma EmitsDelimited(g: Group)
    ensures var e := Emits(g);
      && |e| == |g.before| + |g.after| + 3
      && e[0] == SimilarityLine(g.score) && e[|e| - 1] == Separator
      && e[|g.before| + 1] == Line(g.matched)
      && forall k :: 0 < k < |e| - 1 ==> e[k].Line?
  {
    var e := Emits(g);
    var b := |g.before|;
    forall k | 0 < k < |e| - 1
      ensures e[k].Line?
    {
      if k <= b {
        assert e[k] == Lines(g.before)[k - 1];
      } else if k > b + 1 {
        assert e[k] == Lines(g.after)[k - b - 2];
      }
    }
  }

  /** A line without a hit goes to the buffer. */
  lemma GroupsOfMiss(st: Settings, lines: seq<seq<byte>>, hits: seq<Option<Hit>>, pos: nat, buffer: Buffer)
    requires |hits| == |lines| && pos < |lines| && |buffer.texts| == |buffer.numbers|
    requires hits[pos].None?
    ensures Groups(st, lines, hits, pos, buffer) ==
      Groups(st, lines, hits, pos + 1, BufferLine(st, buffer, Numbered(lines[pos], pos + 1)))
  {
  }

  /** A match prints its group, empties the buffer, and the rest of the
      input is scanned after its last line. */
  lemma GroupsOfHit(st: Settings, lines: seq<seq<byte>>, hits: seq<Option<Hit>>, pos: nat, buffer: Buffer, hit: Hit)
    requires |hits| == |lines| && pos < |lines| && |buffer.texts| == |buffer.numbers|
    requires hits[pos] == Some(hit)
    ensures Render(Groups(st, lines, hits, pos, buffer)) ==
      Emits(MatchGroup(st, lines, pos, buffer, hit)) + Render(Groups(st, lines, hits, AfterEnd(st, lines, pos), Buffer([], [])))
  {
    var rest := Groups(st, lines, hits, AfterEnd(st, lines, pos), Buffer([], []));
    assert ([MatchGroup(st, lines, pos, buffer, hit)] + rest)[1..] == rest;
  }

  /** The token loop of `ProcessLineByLine`: each token is lower-cased when
      case is ignored, looked up and scored through the cache, and the loop
      stops at the first score above the threshold. */
  method ScanTokens(st: Settings, tokens: seq<seq<byte>>, queryKey: seq<byte>, queryVector: Vector,
                    cache: SimilarityCache)
    returns (hit: Option<Hit>)
    requires st.model.size >= 0
    requires queryKey == Key(st, st.query) && queryVector == GetVectorEmbedding(queryKey, st.model)
    requires cache.Sound(queryKey, queryVector, Embedder(st.model), st.cosine)
    modifies cache
    ensures cache.Sound(queryKey, queryVector, Embedder(st.model), st.cosine)
    ensures hit == FirstHit(st, tokens)
  {
    var i: nat := 0;
    while i < |tokens|
      invariant i <= |tokens|
      invariant cache.Sound(queryKey, queryVector, Embedder(st.model), st.cosine)
      invariant FirstHit(st, tokens[i..]) == FirstHit(st, tokens)
    {
      var token := tokens[i];
      var tokenToCheck := if st.ignoreCase then st.toLower(token) else token;
      var tokenVector := GetVectorEmbedding(tokenToCheck, st.model);
      var similarity := cache.MemoizedCalculateSimilarity(queryKey, tokenToCheck, queryVector, tokenVector,
                                                          st.cosine, Embedder(st.model));
      assert similarity == TokenScore(st, token);
      if Above(similarity, st.threshold) {
        return Some(Hit(token, similarity));
      }
      assert tokens[i..][1..] == tokens[i + 1..];
      i := i + 1;
    }
    return None;
  }

  /** The loop printing the buffered lines before a match. */
  method EmitBefore(contextBuffer: seq<seq<byte>>, contextLineNumbers: seq<int>) returns (events: seq<Emit>)
    requires |contextBuffer| == |contextLineNumbers|
    ensures events == Lines(Entries(Buffer(contextBuffer, contextLineNumbers)))
  {
    events := [];
    for i := 0 to |contextBuffer|
      invariant |events| == i
      invariant forall k :: 0 <= k < i ==> events[k] == Line(Numbered(contextBuffer[k], contextLineNumbers[k]))
    {
      events := events + [Line(Numbered(contextBuffer[i], contextLineNumbers[i]))];
    }
  }

  /** The loop printing the lines after a match: at most `contextAfter` more
      lines are read, each numbered and printed as it is. */
  method EmitAfter(lines: seq<seq<byte>>, lineNumber: nat, contextAfter: int)
    returns (events: seq<Emit>, newLineNumber: nat)
    requires lineNumber <= |lines|
    ensures newLineNumber == lineNumber + Min(Count(contextAfter), |lines| - lineNumber)
    ensures events == Lines(Numbering(lines, lineNumber, newLineNumber - lineNumber))
  {
    events := [];
    newLineNumber := lineNumber;
    var i: nat := 0;
    while i < contextAfter && newLineNumber < |lines|
      invariant newLineNumber == lineNumber + i <= |lines|
      invariant i <= Count(contextAfter)
      invariant |events| == i
      invariant forall k :: 0 <= k < i ==> events[k] == Line(Numbered(lines[lineNumber + k], lineNumber + k + 1))
    {
      var text := lines[newLineNumber];
      newLineNumber := newLineNumber + 1;
      events := events + [Line(Numbered(text, newLineNumber))];
      i := i + 1;
    }
  }

  /** What a match prints: the score, the buffered lines, the matched line
      with every occurrence of the hit token in red, and the lines after it,
      which are read on from the same input. */
  method PrintMatch(st: Settings, lines: seq<seq<byte>>, lineNumber: nat,
                    contextBuffer: seq<seq<byte>>, contextLineNumbers: seq<int>, hit: Hit)
    returns (events: seq<Emit>, newLineNumber: nat)
    requires 0 < lineNumber <= |lines| && |contextBuffer| == |contextLineNumbers|
    ensures newLineNumber == AfterEnd(st, lines, lineNumber - 1)
    ensures events == Emits(MatchGroup(st, lines, lineNumber - 1, Buffer(contextBuffer, contextLineNumbers), hit))
  {
    var line := lines[lineNumber - 1];
    var highlightedLine := ReplaceAll(line, hit.token, ColorText(hit.token, "red"));
    var before := EmitBefore(contextBuffer, contextLineNumbers);
    var after;
    after, newLineNumber := EmitAfter(lines, lineNumber, st.contextAfter);
    events := [SimilarityLine(hit.score)] + before + [Line(Numbered(highlightedLine, lineNumber))] + after + [Separator];
  }

  /** One turn of the scanner loop: the next line is numbered and scored; a
      match prints its group, reads on past the lines printed after it and
      empties the buffer, any other line goes to the buffer. */
  method ProcessLine(st: Settings, lines: seq<seq<byte>>, ghost hits: seq<Option<Hit>>, lineNumber: nat,
                     contextBuffer: seq<seq<byte>>, contextLineNumbers: seq<int>,
                     queryKey: seq<byte>, queryVector: Vector, cache: SimilarityCache)
    returns (events: seq<Emit>, newLineNumber: nat, newBuffer: seq<seq<byte>>, newNumbers: seq<int>)
    requires st.model.size >= 0 && hits == Hits(st, lines)
    requires lineNumber < |lines| && |contextBuffer| == |contextLineNumbers|
    requires queryKey == Key(st, st.query) && queryVector == GetVectorEmbedding(queryKey, st.model)
    requires cache.Sound(queryKey, queryVector, Embedder(st.model), st.cosine)
    modifies cache
    ensures cache.Sound(queryKey, queryVector, Embedder(st.model), st.cosine)
    ensures lineNumber < newLineNumber <= |lines| && |newBuffer| == |newNumbers|
    ensures Render(Groups(st, lines, hits, lineNumber, Buffer(contextBuffer, contextLineNumbers)))
      == events + Render(Groups(st, lines, hits, newLineNumber, Buffer(newBuffer, newNumbers)))
  {
    ghost var buffer := Buffer(contextBuffer, contextLineNumbers);
    var line := lines[lineNumber];
    newLineNumber := lineNumber + 1;
    var hit := ScanTokens(st, st.segment(line), queryKey, queryVector, cache);
    assert hit == hits[lineNumber];
    if hit.Some? {
      GroupsOfHit(st, lines, hits, lineNumber, buffer, hit.value);
      events, newLineNumber := PrintMatch(st, lines, newLineNumber, contextBuffer, contextLineNumbers, hit.value);
      newBuffer, newNumbers := [], [];
    } else {
      GroupsOfMiss(st, lines, hits, lineNumber, buffer);
      events := [];
      newBuffer, newNumbers := contextBuffer, contextLineNumbers;
      if st.contextBefore > 0 {
        newBuffer := newBuffer + [line];
        newNumbers := newNumbers + [newLineNumber];
        if |newBuffer| > st.contextBefore {
          newBuffer := newBuffer[1..];
          newNumbers := newNumbers[1..];
        }
      }
    }
  }

  /** `ProcessLineByLine` over the lines the scanner yields: the printed
      items are those of the matches `Groups` finds, which `ProcessedMatches`
      describes. */
  method ProcessLineByLine(st: Settings, lines: seq<seq<byte>>) returns (out: seq<Emit>)
    requires st.model.size >= 0
    ensures out == Render(Groups(st, lines, Hits(st, lines), 0, Buffer([], [])))
  {
    var queryTokenToCheck := if st.ignoreCase then st.toLower(st.query) else st.query;
    var queryVector := GetVectorEmbedding(queryTokenToCheck, st.model);
    var similarityCache := new SimilarityCache();
    out := ScanLines(st, lines, Hits(st, lines), queryTokenToCheck, queryVector, similarityCache);
  }

  /** The line loop of `ProcessLineByLine`, with the buffer of lines before
      a match starting empty. */
  method ScanLines(st: Settings, lines: seq<seq<byte>>, ghost hits: seq<Option<Hit>>,
                   queryKey: seq<byte>, queryVector: Vector, cache: SimilarityCache)
    returns (out: seq<Emit>)
    requires st.model.size >= 0 && hits == Hits(st, lines)
    requires queryKey == Key(st, st.query) && queryVector == GetVectorEmbedding(queryKey, st.model)
    requires cache.Sound(queryKey, queryVector, Embedder(st.model), st.cosine)
    modifies cache
    ensures out == Render(Groups(st, lines, hits, 0, Buffer([], [])))
  {
    var lineNumber: nat := 0;
    var contextBuffer: seq<seq<byte>> := [];
    var contextLineNumbers: seq<int> := [];
    ghost var target := Render(Groups(st, lines, hits, 0, Buffer([], [])));
    out := [];
    while lineNumber < |lines|
      invariant lineNumber <= |lines|
      invariant |contextBuffer| == |contextLineNumbers|
      invariant cache.Sound(queryKey, queryVector, Embedder(st.model), st.cosine)
      invariant out + Render(Groups(st, lines, hits, lineNumber, Buffer(contextBuffer, contextLineNumbers))) == target
      decreases |lines| - lineNumber
    {
      var events;
      ghost var rest := Render(Groups(st, lines, hits, lineNumber, Buffer(contextBuffer, contextLineNumbers)));
      events, lineNumber, contextBuffer, contextLineNumbers :=
        ProcessLine(st, lines, hits, lineNumber, contextBuffer, contextLineNumbers, queryKey, queryVector, cache);
      ghost var tail := Render(Groups(st, lines, hits, lineNumber, Buffer(contextBuffer, contextLineNumbers)));
      assert rest == events + tail;
      assert out + rest == (out + events) + tail;
      out := out + events;
    }
  }

  /** The whole output: every match is placed and they come in order; every
      line whose tokens reach the threshold is a matched line or printed
      after one. */
  lemma ProcessedMatches(st: Settings, lines: seq<seq<byte>>)
    requires st.model.size >= 0
    ensures var hits := Hits(st, lines);
      && (forall i :: 0 <= i < |lines| ==> hits[i] == LineHit(st, lines[i]))
      && InOrder(st, lines, hits, Groups(st, lines, hits, 0, Buffer([], [])), 0)
      && forall i :: 0 <= i < |lines| && LineHit(st, lines[i]).Some? ==>
           Covered(Groups(st, lines, hits, 0, Buffer([], [])), i)
  {
    var hits := Hits(st, lines);
    GroupsInOrder(st, lines, hits, 0, Buffer([], []), 0);
    forall i | 0 <= i < |lines| && LineHit(st, lines[i]).Some?
      ensures Covered(Groups(st, lines, hits, 0, Buffer([], [])), i)
    {
      assert hits[i] == LineHit(st, lines[i]);
      GroupsComplete(st, lines, hits, 0, Buffer([], []), i);
    }
  }
}
