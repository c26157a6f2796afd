/**
  Section-aware chunking of a paper's text: each section's body is cut into
  overlapping word windows labelled with the section's heading, and small or
  unlabelled chunks are then merged into runs. The regular-expression split of
  the full text into sections is taken as given: the chunker receives the list
  of section texts.
*/
module SectionChunker {
  import opened Text
  import opened Windows

  datatype Chunk = Chunk(text: String, section: String)

  /** `section_text.strip().split("\n")`. */
  function Lines(sectionText: String): (lines: seq<String>)
    ensures |lines| >= 1
  {
    SplitOn(Strip(sectionText), '\n')
  }

  /** The stripped first line, taken as the section's name. */
  function SectionName(sectionText: String): String {
    Strip(Lines(sectionText)[0])
  }

  /** The remaining lines joined with spaces and stripped. */
  function SectionBody(sectionText: String): String {
    Strip(Join(" ", Lines(sectionText)[1..]))
  }

  /** The words of the window starting at word `start`: `words[start:end]`. */
  function WindowRun(words: seq<String>, start: nat, targetWords: int): seq<String> {
    PySlice(words, start, Min(start + targetWords, |words|))
  }

  /**
    The text of the window starting at word `start`. The source strips the joined
    text as well; `StripOfWindow` shows that stripping changes nothing here.
  */
  function WindowText(words: seq<String>, start: nat, targetWords: int): String {
    Join(" ", WindowRun(words, start, targetWords))
  }

  /** One chunk per window start, each labelled `name`. */
  function ChunksAt(words: seq<String>, name: String, targetWords: int, starts: seq<nat>): seq<Chunk> {
    if starts == [] then []
    else [Chunk(WindowText(words, starts[0], targetWords), name)] + ChunksAt(words, name, targetWords, starts[1..])
  }

  /** The chunks of one section body, advancing by `targetWords - overlapWords` words. */
  function WindowChunks(words: seq<String>, name: String, targetWords: int, overlapWords: int): (cs: seq<Chunk>)
    requires targetWords > overlapWords
  {
    ChunksAt(words, name, targetWords, Starts(|words|, targetWords - overlapWords, 0))
  }

  /** The chunks of one section: none when its body is empty. */
  function SectionChunks(sectionText: String, targetWords: int, overlapWords: int): (cs: seq<Chunk>)
    requires targetWords > overlapWords
  {
    var body := SectionBody(sectionText);
    if body == [] then [] else WindowChunks(Words(body), SectionName(sectionText), targetWords, overlapWords)
  }

  /** The chunks of all sections, section by section. */
  function AllChunks(sections: seq<String>, targetWords: int, overlapWords: int): seq<Chunk>
    requires targetWords > overlapWords
  {
    if sections == [] then []
    else AllChunks(sections[..|sections| - 1], targetWords, overlapWords) + SectionChunks(sections[|sections| - 1], targetWords, overlapWords)
  }

  /** `strip()` leaves a window's text alone: it is a space-join of words. */
  lemma StripOfWindow(words: seq<String>, start: nat, targetWords: int)
    requires forall w :: w in words ==> IsWord(w)
    ensures Strip(Join(" ", WindowRun(words, start, targetWords))) == WindowText(words, start, targetWords)
  {
    var run := WindowRun(words, start, targetWords);
    assert forall w :: w in run ==> IsWord(w) by {
      forall w | w in run ensures IsWord(w) {
        var j :| 0 <= j < |run| && run[j] == w;
        assert w in words;
      }
    }
    JoinWordsStripped(run);
  }

  /** The head of the loop body of `section_aware_chunking`: a section's name and body. */
  method SplitSection(sectionText: String) returns (sectionName: String, body: String)
    ensures sectionName == SectionName(sectionText) && body == SectionBody(sectionText)
  {
    var lines := SplitOn(Strip(sectionText), '\n');
    // `lines` is never empty, so the source's `if not lines: continue` never fires.
    sectionName := Strip(lines[0]);
    body := Strip(Join(" ", lines[1..]));
  }

  /** `" ".join(words[start:end]).strip()` for the window starting at `start`. */
  method JoinWindow(words: seq<String>, start: nat, targetWords: int) returns (chunkText: String)
    requires forall w :: w in words ==> IsWord(w)
    ensures chunkText == WindowText(words, start, targetWords)
  {
    var end := Min(start + targetWords, |words|);
    chunkText := Strip(Join(" ", PySlice(words, start, end)));
    StripOfWindow(words, start, targetWords);
  }

  /**
    The inner loop of `section_aware_chunking`: windows of at most `targetWords`
    words advance by `targetWords - overlapWords` words until the body is used up.
    A step that is not positive never ends, so the method requires a positive one.
  */
  method ChunkBody(words: seq<String>, sectionName: String, targetWords: int, overlapWords: int) returns (chunks: seq<Chunk>)
    requires forall w :: w in words ==> IsWord(w)
    requires targetWords > overlapWords
    ensures chunks == WindowChunks(words, sectionName, targetWords, overlapWords)
  {
    var step: nat := targetWords - overlapWords;
    chunks := [];
    var start: nat := 0;
    while start < |words|
      invariant start == |chunks| * step
      invariant |chunks| == 0 || (|chunks| - 1) * step < |words|
      invariant forall i :: 0 <= i < |chunks| ==> chunks[i] == Chunk(WindowText(words, i * step, targetWords), sectionName)
      decreases |words| - start
    {
      var chunkText := JoinWindow(words, start, targetWords);
      MulSucc(|chunks|, step);
      chunks := chunks + [Chunk(chunkText, sectionName)];
      start := start + step;
    }
    WindowChunksAre(words, sectionName, targetWords, overlapWords, chunks);
  }

  /** A run of chunks, one per window start in order and as many as there are starts, is the body's chunks. */
  lemma WindowChunksAre(words: seq<String>, name: String, targetWords: int, overlapWords: int, chunks: seq<Chunk>)
    requires targetWords > overlapWords
    requires |chunks| * (targetWords - overlapWords) >= |words|
    requires |chunks| == 0 || (|chunks| - 1) * (targetWords - overlapWords) < |words|
    requires forall i :: 0 <= i < |chunks| ==> chunks[i] == Chunk(WindowText(words, i * (targetWords - overlapWords), targetWords), name)
    ensures chunks == WindowChunks(words, name, targetWords, overlapWords)
  {
    var step := targetWords - overlapWords;
    var whole := WindowChunks(words, name, targetWords, overlapWords);
    var ss := Starts(|words|, step, 0);
    WindowChunkCount(words, name, targetWords, overlapWords);
    WindowCountExact(|words|, step, |chunks|);
    if |chunks| > 0 {
      WindowCountExact(|words|, step, |chunks| - 1);
    }
    assert |chunks| == |whole|;
    forall i | 0 <= i < |chunks|
      ensures chunks[i] == whole[i]
    {
      ChunksAtIndex(words, name, targetWords, ss, i);
      StartsAt(|words|, step, 0, i);
    }
  }

  /** One more section appends its chunks. */
  lemma AllChunksSnoc(sections: seq<String>, i: nat, targetWords: int, overlapWords: int)
    requires targetWords > overlapWords
    requires i < |sections|
    ensures AllChunks(sections[..i + 1], targetWords, overlapWords)
         == AllChunks(sections[..i], targetWords, overlapWords) + SectionChunks(sections[i], targetWords, overlapWords)
  {
    assert sections[..i + 1][..i] == sections[..i];
  }

  /** One pass of the section loop: name and body, then the body's windows; an empty body gives none. */
  method ChunkSection(sectionText: String, targetWords: int, overlapWords: int) returns (sectionChunks: seq<Chunk>)
    requires targetWords > overlapWords
    ensures sectionChunks == SectionChunks(sectionText, targetWords, overlapWords)
  {
    var sectionName, body := SplitSection(sectionText);
    if body == [] {
      return [];
    }
    var words := Words(body);
    sectionChunks := ChunkBody(words, sectionName, targetWords, overlapWords);
  }

  /**
    `section_aware_chunking`: each section's stripped first line names it, the
    rest is its body, and a section with an empty body gives no chunks.
  */
  method SectionAwareChunking(sections: seq<String>, targetWords: int, overlapWords: int) returns (chunks: seq<Chunk>)
    requires targetWords > overlapWords
    ensures chunks == AllChunks(sections, targetWords, overlapWords)
  {
    chunks := [];
    for i := 0 to |sections|
      invariant chunks == AllChunks(sections[..i], targetWords, overlapWords)
    {
      AllChunksSnoc(sections, i, targetWords, overlapWords);
      var sectionChunks := ChunkSection(sections[i], targetWords, overlapWords);
      chunks := chunks + sectionChunks;
    }
    assert sections[..|sections|] == sections;
  }

  // ---------------------------------------------------------------- what the windows promise

  /** Chunk `i` is the window at start `i`. */
  lemma {:induction false} ChunksAtIndex(words: seq<String>, name: String, targetWords: int, starts: seq<nat>, i: nat)
    ensures |ChunksAt(words, name, targetWords, starts)| == |starts|
    ensures i < |starts| ==> ChunksAt(words, name, targetWords, starts)[i] == Chunk(WindowText(words, starts[i], targetWords), name)
    decreases |starts|
  {
    if starts != [] {
      ChunksAtIndex(words, name, targetWords, starts[1..], if i > 0 then i - 1 else 0);
    }
  }

  /** A body of `n` words gives `ceil(n / step)` chunks. */
  lemma WindowChunkCount(words: seq<String>, name: String, targetWords: int, overlapWords: int)
    requires overlapWords < targetWords
    ensures |WindowChunks(words, name, targetWords, overlapWords)| == WindowCount(|words|, targetWords - overlapWords)
  {
    var step := targetWords - overlapWords;
    var ss := Starts(|words|, step, 0);
    ChunksAtIndex(words, name, targetWords, ss, 0);
    StartsAt(|words|, step, 0, |ss|);
    WindowCountExact(|words|, step, |ss|);
    if |ss| > 0 {
      StartsAt(|words|, step, 0, |ss| - 1);
      WindowCountExact(|words|, step, |ss| - 1);
    }
  }

  /**
    Chunk `k` holds the run of words from `k * step` up to `targetWords` words
    further, cut at the end of the body; its text splits back into exactly those
    words, and it carries the section's name.
  */
  lemma WindowContents(words: seq<String>, name: String, targetWords: int, overlapWords: int, k: nat)
    requires forall w :: w in words ==> IsWord(w)
    requires 0 < targetWords && overlapWords < targetWords
    requires k < |WindowChunks(words, name, targetWords, overlapWords)|
    ensures var lo := k * (targetWords - overlapWords);
            var hi := Min(lo + targetWords, |words|);
            && 0 <= lo < hi <= |words| && hi - lo <= targetWords
            && WindowChunks(words, name, targetWords, overlapWords)[k].section == name
            && Words(WindowChunks(words, name, targetWords, overlapWords)[k].text) == words[lo..hi]
  {
    var step := targetWords - overlapWords;
    var ss := Starts(|words|, step, 0);
    ChunksAtIndex(words, name, targetWords, ss, k);
    StartsAt(|words|, step, 0, k);
    var lo := k * step;
    assert 0 <= lo;
    WindowWords(words, lo, targetWords);
  }

  /** A window starting inside the body splits back into the run of words it covers. */
  lemma WindowWords(words: seq<String>, lo: nat, targetWords: int)
    requires forall w :: w in words ==> IsWord(w)
    requires 0 < targetWords && lo < |words|
    ensures var hi := Min(lo + targetWords, |words|);
            && lo < hi <= |words| && hi - lo <= targetWords
            && Words(WindowText(words, lo, targetWords)) == words[lo..hi]
  {
    var hi := Min(lo + targetWords, |words|);
    var run := words[lo..hi];
    assert lo < hi <= |words| && hi - lo <= targetWords;
    assert Words(WindowText(words, lo, targetWords)) == run by {
      assert WindowRun(words, lo, targetWords) == run;
      assert forall w :: w in run ==> IsWord(w);
      WordsOfJoin(run);
    }
  }

  /**
    With a non-negative overlap the chunks leave no gap: every body word lies in
    the run of some chunk.
  */
  lemma WindowsCover(words: seq<String>, name: String, targetWords: int, overlapWords: int, j: nat)
    requires 0 <= overlapWords < targetWords
    requires j < |words|
    ensures var step := targetWords - overlapWords;
            exists k :: 0 <= k < |WindowChunks(words, name, targetWords, overlapWords)| && k * step <= j < Min(k * step + targetWords, |words|)
  {
    var step := targetWords - overlapWords;
    var k := j / step;
    assert k * step <= j < k * step + step;
    WindowCountExact(|words|, step, k);
    WindowChunkCount(words, name, targetWords, overlapWords);
  }

  /** The last chunk ends at the body's last word. */
  lemma LastWindowEnds(words: seq<String>, name: String, targetWords: int, overlapWords: int)
    requires 0 <= overlapWords < targetWords
    requires words != []
    ensures var step := targetWords - overlapWords;
            var last := |WindowChunks(words, name, targetWords, overlapWords)| - 1;
            0 <= last && Min(last * step + targetWords, |words|) == |words|
  {
    WindowChunkCount(words, name, targetWords, overlapWords);
    LastWindow(|words|, targetWords - overlapWords, targetWords);
  }

  /** Slices of a full window and of the window `step` words later overlap in `targetWords - step` words. */
  lemma RunsOverlap(words: seq<String>, lo: nat, step: nat, targetWords: nat)
    requires 0 < step <= targetWords && lo + targetWords <= |words|
    ensures var hi' := Min(lo + step + targetWords, |words|);
            && lo + targetWords <= hi'
            && words[lo..lo + targetWords][step..] == words[lo + step..hi'][..targetWords - step]
  {
  }

  /**
    A full chunk and the next one share exactly `overlapWords` words: the last
    `overlapWords` words of chunk `k` open chunk `k + 1`.
  */
  lemma WindowsOverlap(words: seq<String>, name: String, targetWords: int, overlapWords: int, k: nat)
    requires forall w :: w in words ==> IsWord(w)
    requires 0 <= overlapWords < targetWords
    requires k + 1 < |WindowChunks(words, name, targetWords, overlapWords)|
    requires k * (targetWords - overlapWords) + targetWords <= |words|
    ensures var cs := WindowChunks(words, name, targetWords, overlapWords);
            var a, b := Words(cs[k].text), Words(cs[k + 1].text);
            && |a| == targetWords && |b| >= overlapWords
            && a[targetWords - overlapWords..] == b[..overlapWords]
  {
    var step := targetWords - overlapWords;
    var cs := WindowChunks(words, name, targetWords, overlapWords);
    var lo := k * step;
    WindowContents(words, name, targetWords, overlapWords, k);
    assert Words(cs[k].text) == words[lo..lo + targetWords];
    WindowContents(words, name, targetWords, overlapWords, k + 1);
    MulSucc(k, step);
    var hi' := Min(lo + step + targetWords, |words|);
    assert Words(cs[k + 1].text) == words[lo + step..hi'];
    RunsOverlap(words, lo, step, targetWords);
  }

  // ---------------------------------------------------------------- merging small chunks

  /** A chunk is merged away when it has fewer words than the minimum or its section reads "unknown". */
  predicate Small(c: Chunk, minTokens: int) {
    |Words(c.text)| < minTokens || Lower(c.section) == "unknown"
  }

  /** The test above as a function of the chunk, for the grouping below. */
  function SmallFor(minTokens: int): Chunk -> bool {
    c => Small(c, minTokens)
  }

  function Texts(cs: seq<Chunk>): (ts: seq<String>)
    ensures |ts| == |cs| && forall i :: 0 <= i < |cs| ==> ts[i] == cs[i].text
  {
    seq(|cs|, i requires 0 <= i < |cs| => cs[i].text)
  }

  function Sections(cs: seq<Chunk>): (ss: seq<String>)
    ensures |ss| == |cs| && forall i :: 0 <= i < |cs| ==> ss[i] == cs[i].section
  {
    seq(|cs|, i requires 0 <= i < |cs| => cs[i].section)
  }

  /** `current_section or "unknown"`; the empty string stands for both `None` and `""`. */
  function Label(current: String): String {
    if current != [] then current else "unknown"
  }

  /** Python's `a or b or ...` over strings: the first non-empty one, else "". */
  function FirstTruthy(xs: seq<String>): String {
    if xs == [] then [] else if xs[0] != [] then xs[0] else FirstTruthy(xs[1..])
  }

  /** What each output chunk is made of: an input chunk kept as it is, or a run of merged small chunks. */
  datatype Piece = Kept(chunk: Chunk) | Run(members: seq<Chunk>, heading: String)

  /** The output dict of a piece: a run's texts are joined with single spaces. */
  function Render(p: Piece): Chunk {
    match p
    case Kept(c) => c
    case Run(members, heading) => Chunk(Join(" ", Texts(members)), heading)
  }

  function Renders(ps: seq<Piece>): (cs: seq<Chunk>)
    ensures |cs| == |ps| && forall i :: 0 <= i < |ps| ==> cs[i] == Render(ps[i])
  {
    seq(|ps|, i requires 0 <= i < |ps| => Render(ps[i]))
  }

  function Members(p: Piece): seq<Chunk> {
    match p
    case Kept(c) => [c]
    case Run(members, _) => members
  }

  /** The input chunks the pieces were made of, in order. */
  function Flatten(ps: seq<Piece>): seq<Chunk> {
    if ps == [] then [] else Flatten(ps[..|ps| - 1]) + Members(ps[|ps| - 1])
  }

  /** The loop state of `merge_small_chunks`, with `merged` kept as pieces and `buffer` as chunks. */
  datatype MergeState = MergeState(pieces: seq<Piece>, buffer: seq<Chunk>, current: String)

  /** Emptying a non-empty buffer into one run labelled `current_section or "unknown"`. */
  function Flush(st: MergeState): seq<Piece> {
    if st.buffer == [] then st.pieces else st.pieces + [Run(st.buffer, Label(st.current))]
  }

  /** One iteration of the loop. */
  function Step(st: MergeState, c: Chunk, small: Chunk -> bool): MergeState {
    if small(c) then
      MergeState(st.pieces, st.buffer + [c], if st.current != [] then st.current else c.section)
    else
      MergeState(Flush(st) + [Kept(c)], [], c.section)
  }

  function Scan(chunks: seq<Chunk>, small: Chunk -> bool): MergeState {
    if chunks == [] then MergeState([], [], [])
    else Step(Scan(chunks[..|chunks| - 1], small), chunks[|chunks| - 1], small)
  }

  /** How `merge_small_chunks` groups its input. */
  function Pieces(chunks: seq<Chunk>, small: Chunk -> bool): seq<Piece> {
    Flush(Scan(chunks, small))
  }

  /** The list `merge_small_chunks` returns. */
  function Merged(chunks: seq<Chunk>, minTokens: int): seq<Chunk> {
    Renders(Pieces(chunks, SmallFor(minTokens)))
  }

  /**
    `merge_small_chunks`: consecutive small chunks are buffered and emitted as one
    chunk when a large chunk or the end of the input is reached.
  */
  method MergeSmallChunks(chunks: seq<Chunk>, minTokens: int) returns (merged: seq<Chunk>)
    ensures merged == Merged(chunks, minTokens)
  {
    ghost var small := SmallFor(minTokens);
    merged := [];
    var buffer: seq<String> := [];
    var currentSection: String := [];
    for i := 0 to |chunks|
      invariant Mirrors(Scan(chunks[..i], small), merged, buffer, currentSection)
    {
      ghost var st := Scan(chunks[..i], small);
      var chunk := chunks[i];
      assert Scan(chunks[..i + 1], small) == Step(st, chunk, small) by {
        assert chunks[..i + 1] == chunks[..i] + [chunk];
        ScanSnoc(chunks[..i], chunk, small);
      }
      var tokens := |Words(chunk.text)|;
      var section := chunk.section;
      if tokens < minTokens || Lower(section) == "unknown" {
        StepSmallMirrors(st, chunk, small, merged, buffer, currentSection);
        buffer := buffer + [chunk.text];
        currentSection := if currentSection != [] then currentSection else section;
      } else {
        FlushMirrors(st, merged, buffer, currentSection);
        StepLargeMirrors(st, chunk, small);
        if buffer != [] {
          merged := merged + [Chunk(Join(" ", buffer), if currentSection != [] then currentSection else "unknown")];
          buffer := [];
        }
        merged := merged + [chunk];
        currentSection := section;
      }
    }
    assert chunks[..|chunks|] == chunks;
    FlushMirrors(Scan(chunks, small), merged, buffer, currentSection);
    if buffer != [] {
      merged := merged + [Chunk(Join(" ", buffer), if currentSection != [] then currentSection else "unknown")];
    }
  }

  /** The method's variables hold the loop state: rendered pieces, buffered texts, current section. */
  ghost predicate Mirrors(st: MergeState, merged: seq<Chunk>, buffer: seq<String>, current: String) {
    merged == Renders(st.pieces) && buffer == Texts(st.buffer) && current == st.current
  }

  lemma StepSmallMirrors(st: MergeState, c: Chunk, small: Chunk -> bool, merged: seq<Chunk>, buffer: seq<String>, current: String)
    requires Mirrors(st, merged, buffer, current) && small(c)
    ensures Mirrors(Step(st, c, small), merged, buffer + [c.text], if current != [] then current else c.section)
  {
    assert Texts(st.buffer + [c]) == buffer + [c.text];
  }

  lemma StepLargeMirrors(st: MergeState, c: Chunk, small: Chunk -> bool)
    requires !small(c)
    ensures Step(st, c, small) == MergeState(Flush(st) + [Kept(c)], [], c.section)
    ensures Renders(Flush(st) + [Kept(c)]) == Renders(Flush(st)) + [c]
  {
    assert Renders(Flush(st) + [Kept(c)]) == Renders(Flush(st)) + [c];
  }

  lemma FlushMirrors(st: MergeState, merged: seq<Chunk>, buffer: seq<String>, current: String)
    requires Mirrors(st, merged, buffer, current)
    ensures Renders(Flush(st)) == if buffer != [] then merged + [Chunk(Join(" ", buffer), if current != [] then current else "unknown")] else merged
  {
    if st.buffer != [] {
      assert Renders(Flush(st)) == Renders(st.pieces) + [Render(Run(st.buffer, Label(st.current)))];
    }
  }

  // ---------------------------------------------------------------- what merging promises

  predicate PieceOk(p: Piece, small: Chunk -> bool) {
    match p
    case Kept(c) => !small(c)
    case Run(members, _) => members != [] && forall c :: c in members ==> small(c)
  }

  /** The section of the piece before a run: that of a kept chunk, else none. */
  function PrevSection(ps: seq<Piece>): String {
    if ps != [] && ps[|ps| - 1].Kept? then ps[|ps| - 1].chunk.section else []
  }

  /** A run is labelled with the first non-empty of the previous kept chunk's section and its members' sections, else "unknown". */
  predicate Labelled(ps: seq<Piece>, i: nat)
    requires i < |ps|
  {
    ps[i].Run? ==> ps[i].heading == Label(FirstTruthy([PrevSection(ps[..i])] + Sections(ps[i].members)))
  }

  predicate Shaped(ps: seq<Piece>, small: Chunk -> bool) {
    && (forall i :: 0 <= i < |ps| ==> PieceOk(ps[i], small))
    && (forall i :: 0 <= i < |ps| - 1 ==> !(ps[i].Run? && ps[i + 1].Run?))
    && (forall i :: 0 <= i < |ps| ==> Labelled(ps, i))
  }

  /** What holds of the loop state after every iteration. */
  predicate ScanInv(st: MergeState, small: Chunk -> bool) {
    && Shaped(st.pieces, small)
    && (st.pieces != [] ==> st.pieces[|st.pieces| - 1].Kept?)
    && (forall c :: c in st.buffer ==> small(c))
    && st.current == FirstTruthy([PrevSection(st.pieces)] + Sections(st.buffer))
  }

  lemma {:induction false} FirstTruthySnoc(xs: seq<String>, y: String)
    ensures FirstTruthy(xs + [y]) == if FirstTruthy(xs) != [] then FirstTruthy(xs) else y
  {
    if xs != [] {
      assert (xs + [y])[1..] == xs[1..] + [y];
      FirstTruthySnoc(xs[1..], y);
    } else {
      assert FirstTruthy([y]) == y;
    }
  }

  lemma ShapedSnoc(ps: seq<Piece>, q: Piece, small: Chunk -> bool)
    requires Shaped(ps, small) && PieceOk(q, small)
    requires q.Run? ==> ps == [] || ps[|ps| - 1].Kept?
    requires q.Run? ==> q.heading == Label(FirstTruthy([PrevSection(ps)] + Sections(q.members)))
    ensures Shaped(ps + [q], small)
  {
    var qs := ps + [q];
    forall i | 0 <= i < |qs|
      ensures Labelled(qs, i)
    {
      if i < |ps| {
        assert qs[..i] == ps[..i];
        assert Labelled(ps, i);
      } else {
        assert qs[..i] == ps;
      }
    }
  }

  lemma FlattenSnoc(ps: seq<Piece>, q: Piece)
    ensures Flatten(ps + [q]) == Flatten(ps) + Members(q)
  {
    assert (ps + [q])[..|ps|] == ps;
  }

  lemma StepSmallInv(st: MergeState, c: Chunk, small: Chunk -> bool)
    requires ScanInv(st, small) && small(c)
    ensures ScanInv(Step(st, c, small), small)
  {
    var prev := [PrevSection(st.pieces)];
    assert Sections(st.buffer + [c]) == Sections(st.buffer) + [c.section];
    assert prev + Sections(st.buffer + [c]) == prev + Sections(st.buffer) + [c.section];
    FirstTruthySnoc(prev + Sections(st.buffer), c.section);
  }

  lemma StepLargeInv(st: MergeState, c: Chunk, small: Chunk -> bool)
    requires ScanInv(st, small) && !small(c)
    ensures ScanInv(Step(st, c, small), small)
    ensures Step(st, c, small).pieces == Flush(st) + [Kept(c)]
  {
    FlushShape(st, small);
    ShapedSnoc(Flush(st), Kept(c), small);
    assert FirstTruthy([c.section] + Sections([])) == c.section;
  }

  lemma {:induction false} ScanShape(chunks: seq<Chunk>, small: Chunk -> bool)
    ensures ScanInv(Scan(chunks, small), small)
    ensures Flatten(Scan(chunks, small).pieces) + Scan(chunks, small).buffer == chunks
  {
    if chunks != [] {
      var init, c := chunks[..|chunks| - 1], chunks[|chunks| - 1];
      assert chunks == init + [c];
      ScanShape(init, small);
      var st := Scan(init, small);
      if small(c) {
        StepSmallInv(st, c, small);
        assert Flatten(st.pieces) + (st.buffer + [c]) == chunks;
      } else {
        StepLargeInv(st, c, small);
        FlushShape(st, small);
        FlattenSnoc(Flush(st), Kept(c));
      }
    }
  }

  lemma FlushShape(st: MergeState, small: Chunk -> bool)
    requires ScanInv(st, small)
    ensures Shaped(Flush(st), small)
    ensures Flatten(Flush(st)) == Flatten(st.pieces) + st.buffer
  {
    if st.buffer != [] {
      var q := Run(st.buffer, Label(st.current));
      ShapedSnoc(st.pieces, q, small);
      FlattenSnoc(st.pieces, q);
    }
  }

  /**
    The grouping behind the output: the pieces are exactly the input chunks in
    order; a kept chunk is never small; a run is a non-empty sequence of small
    chunks that never directly follows another run; and a run's section is the
    first non-empty of the preceding kept chunk's section and its members'
    sections, "unknown" when there is none.
  */
  lemma PiecesShape(chunks: seq<Chunk>, small: Chunk -> bool)
    ensures var ps := Pieces(chunks, small);
            && Flatten(ps) == chunks
            && (forall i :: 0 <= i < |ps| && ps[i].Kept? ==> !small(ps[i].chunk))
            && (forall i :: 0 <= i < |ps| && ps[i].Run? ==> ps[i].members != [] && forall c :: c in ps[i].members ==> small(c))
            && (forall i :: 0 <= i < |ps| - 1 ==> !(ps[i].Run? && ps[i + 1].Run?))
            && (forall i :: 0 <= i < |ps| && ps[i].Run? ==> ps[i].heading == Label(FirstTruthy([PrevSection(ps[..i])] + Sections(ps[i].members))))
  {
    ScanShape(chunks, small);
    FlushShape(Scan(chunks, small), small);
    var ps := Pieces(chunks, small);
    forall i | 0 <= i < |ps|
      ensures PieceOk(ps[i], small) && Labelled(ps, i)
    {
    }
  }

  lemma TextsConcat(a: seq<Chunk>, b: seq<Chunk>)
    ensures Texts(a + b) == Texts(a) + Texts(b)
  {
  }

  lemma RendersSnoc(ps: seq<Piece>, q: Piece)
    ensures Texts(Renders(ps + [q])) == Texts(Renders(ps)) + [Render(q).text]
  {
    assert Renders(ps + [q]) == Renders(ps) + [Render(q)];
    TextsConcat(Renders(ps), [Render(q)]);
  }

  lemma {:induction false} JoinPieces(ps: seq<Piece>, zs: seq<String>, small: Chunk -> bool)
    requires forall i :: 0 <= i < |ps| ==> PieceOk(ps[i], small)
    ensures Join(" ", Texts(Renders(ps)) + zs) == Join(" ", Texts(Flatten(ps)) + zs)
  {
    if ps != [] {
      var init, q := ps[..|ps| - 1], ps[|ps| - 1];
      assert ps == init + [q];
      assert PieceOk(q, small);
      var t := Render(q).text;
      RendersSnoc(init, q);
      assert Texts(Renders(ps)) + zs == Texts(Renders(init)) + ([t] + zs);
      assert forall i :: 0 <= i < |init| ==> init[i] == ps[i];
      JoinPieces(init, [t] + zs, small);
      var flat := Texts(Flatten(init));
      FlattenSnoc(init, q);
      TextsConcat(Flatten(init), Members(q));
      assert Texts(Flatten(ps)) + zs == flat + Texts(Members(q)) + zs;
      JoinPiece(flat, q, zs, small);
    }
  }

  lemma JoinPiece(flat: seq<String>, q: Piece, zs: seq<String>, small: Chunk -> bool)
    requires PieceOk(q, small)
    ensures Join(" ", flat + ([Render(q).text] + zs)) == Join(" ", flat + Texts(Members(q)) + zs)
  {
    if q.Run? {
      assert flat + ([Render(q).text] + zs) == flat + [Join(" ", Texts(q.members))] + zs;
      JoinFlatten(" ", flat, Texts(q.members), zs);
    } else {
      assert flat + ([Render(q).text] + zs) == flat + Texts(Members(q)) + zs;
    }
  }

  /** No word is lost, added or reordered: joining the output texts gives the input texts joined. */
  lemma MergedKeepsText(chunks: seq<Chunk>, minTokens: int)
    ensures Join(" ", Texts(Merged(chunks, minTokens))) == Join(" ", Texts(chunks))
  {
    var small := SmallFor(minTokens);
    var ps := Pieces(chunks, small);
    PiecesShape(chunks, small);
    forall i | 0 <= i < |ps|
      ensures PieceOk(ps[i], small)
    {
    }
    JoinPieces(ps, [], small);
    assert Texts(Renders(ps)) + [] == Texts(Renders(ps));
    assert Texts(Flatten(ps)) + [] == Texts(chunks);
  }

  lemma {:induction false} FlattenLength(ps: seq<Piece>, small: Chunk -> bool)
    requires forall i :: 0 <= i < |ps| ==> PieceOk(ps[i], small)
    ensures |ps| <= |Flatten(ps)|
    ensures |ps| == |Flatten(ps)| <==> forall i :: 0 <= i < |ps| ==> |Members(ps[i])| == 1
  {
    if ps != [] {
      var init := ps[..|ps| - 1];
      assert forall i :: 0 <= i < |init| ==> init[i] == ps[i];
      FlattenLength(init, small);
      assert PieceOk(ps[|ps| - 1], small);
    }
  }

  /**
    Merging never adds chunks, and keeps their number exactly when every run is
    a single small chunk.
  */
  lemma MergedNoLonger(chunks: seq<Chunk>, minTokens: int)
    ensures |Merged(chunks, minTokens)| <= |chunks|
    ensures |Merged(chunks, minTokens)| == |chunks| <==>
              forall i :: 0 <= i < |Pieces(chunks, SmallFor(minTokens))| ==> |Members(Pieces(chunks, SmallFor(minTokens))[i])| == 1
  {
    var small := SmallFor(minTokens);
    var ps := Pieces(chunks, small);
    PiecesShape(chunks, small);
    forall i | 0 <= i < |ps|
      ensures PieceOk(ps[i], small)
    {
    }
    FlattenLength(ps, small);
  }

  lemma {:induction false} AllKeptRender(ps: seq<Piece>)
    requires forall i :: 0 <= i < |ps| ==> ps[i].Kept?
    ensures Renders(ps) == Flatten(ps)
  {
    if ps != [] {
      var init := ps[..|ps| - 1];
      assert forall i :: 0 <= i < |init| ==> init[i] == ps[i];
      AllKeptRender(init);
      assert Renders(ps) == Renders(init) + [Render(ps[|ps| - 1])];
    }
  }

  /** Chunks that are all large and labelled pass through unchanged. */
  lemma MergeNothingSmall(chunks: seq<Chunk>, minTokens: int)
    requires forall i :: 0 <= i < |chunks| ==> !Small(chunks[i], minTokens)
    ensures Merged(chunks, minTokens) == chunks
  {
    var small := SmallFor(minTokens);
    var ps := Pieces(chunks, small);
    PiecesShape(chunks, small);
    forall i | 0 <= i < |ps|
      ensures ps[i].Kept?
    {
      if ps[i].Run? {
        var c := ps[i].members[0];
        assert c in ps[i].members;
        FlattenMember(ps, i, c);
      }
    }
    AllKeptRender(ps);
  }

  lemma {:induction false} FlattenMember(ps: seq<Piece>, i: nat, c: Chunk)
    requires i < |ps| && c in Members(ps[i])
    ensures c in Flatten(ps)
  {
    var init := ps[..|ps| - 1];
    if i < |ps| - 1 {
      assert init[i] == ps[i];
      FlattenMember(init, i, c);
    }
  }

  // ---------------------------------------------------------------- merging twice

  /** The state of a second pass over the rendered pieces `ps[..k]`. */
  predicate SecondPass(st: MergeState, ps: seq<Piece>, k: nat)
    requires k <= |ps|
  {
    && Renders(st.pieces) + st.buffer == Renders(ps[..k])
    && (st.buffer != [] ==> k > 0 && ps[k - 1].Run? && st.buffer == [Render(ps[k - 1])])
    && st.current == (if k == 0 then [] else Render(ps[k - 1]).section)
  }

  lemma HeadingNonEmpty(ps: seq<Piece>, i: nat, small: Chunk -> bool)
    requires Shaped(ps, small) && i < |ps| && ps[i].Run?
    ensures Render(ps[i]).section != []
  {
    assert Labelled(ps, i);
  }

  /** Flushing in the second pass re-creates the rendered run unchanged. */
  lemma SecondPassFlush(st: MergeState, ps: seq<Piece>, k: nat, small: Chunk -> bool)
    requires Shaped(ps, small) && k <= |ps| && SecondPass(st, ps, k)
    ensures Renders(Flush(st)) == Renders(ps[..k])
  {
    if st.buffer != [] {
      var r := Render(ps[k - 1]);
      HeadingNonEmpty(ps, k - 1, small);
      assert Texts([r]) == [r.text];
      assert Render(Run(st.buffer, Label(st.current))) == r;
      assert Renders(Flush(st)) == Renders(st.pieces) + [r];
    }
  }

  lemma ScanSnoc(xs: seq<Chunk>, x: Chunk, small: Chunk -> bool)
    ensures Scan(xs + [x], small) == Step(Scan(xs, small), x, small)
  {
    assert (xs + [x])[..|xs|] == xs;
  }

  /** A second pass meets each rendered run alone between kept chunks, and keeps or re-creates it. */
  lemma {:induction false} SecondPassScan(ps: seq<Piece>, k: nat, small: Chunk -> bool)
    requires Shaped(ps, small) && k <= |ps|
    ensures SecondPass(Scan(Renders(ps[..k]), small), ps, k)
  {
    if k > 0 {
      SecondPassScan(ps, k - 1, small);
      RenderedScanSnoc(ps, k - 1, small);
      SecondPassStep(Scan(Renders(ps[..k - 1]), small), ps, k - 1, small);
    }
  }

  lemma RenderedScanSnoc(ps: seq<Piece>, k: nat, small: Chunk -> bool)
    requires k < |ps|
    ensures Scan(Renders(ps[..k + 1]), small) == Step(Scan(Renders(ps[..k]), small), Render(ps[k]), small)
  {
    assert Renders(ps[..k + 1]) == Renders(ps[..k]) + [Render(ps[k])] by {
      assert ps[..k + 1] == ps[..k] + [ps[k]];
    }
    ScanSnoc(Renders(ps[..k]), Render(ps[k]), small);
  }

  lemma SecondPassStep(st: MergeState, ps: seq<Piece>, k: nat, small: Chunk -> bool)
    requires Shaped(ps, small) && k < |ps| && SecondPass(st, ps, k)
    ensures SecondPass(Step(st, Render(ps[k]), small), ps, k + 1)
  {
    var q, r := ps[k], Render(ps[k]);
    assert PieceOk(q, small);
    assert Renders(ps[..k + 1]) == Renders(ps[..k]) + [r] by {
      assert ps[..k + 1] == ps[..k] + [q];
    }
    if q.Kept? {
      SecondPassFlush(st, ps, k, small);
    } else {
      assert k > 0 ==> ps[k - 1].Kept?;
      assert st.buffer == [];
      if small(r) {
        SecondPassRunLabel(st, ps, k, small);
      }
    }
  }

  lemma SecondPassRunLabel(st: MergeState, ps: seq<Piece>, k: nat, small: Chunk -> bool)
    requires Shaped(ps, small) && k < |ps| && SecondPass(st, ps, k) && ps[k].Run?
    requires k > 0 ==> ps[k - 1].Kept?
    ensures (if st.current != [] then st.current else Render(ps[k]).section) == Render(ps[k]).section
  {
    assert Labelled(ps, k);
    assert k > 0 ==> ps[..k][k - 1] == ps[k - 1];
    assert st.current == PrevSection(ps[..k]);
  }

  /** Merging an already merged list changes nothing. */
  lemma MergeIdempotent(chunks: seq<Chunk>, minTokens: int)
    ensures Merged(Merged(chunks, minTokens), minTokens) == Merged(chunks, minTokens)
  {
    var small := SmallFor(minTokens);
    var ps := Pieces(chunks, small);
    assert Shaped(ps, small) by {
      ScanShape(chunks, small);
      FlushShape(Scan(chunks, small), small);
    }
    assert ps[..|ps|] == ps;
    var st := Scan(Renders(ps), small);
    assert SecondPass(st, ps, |ps|) by {
      SecondPassScan(ps, |ps|, small);
    }
    assert Renders(Flush(st)) == Renders(ps) by {
      SecondPassFlush(st, ps, |ps|, small);
    }
  }
}
