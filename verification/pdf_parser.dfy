/**
  The unified PDF parser: a fallback chain over text extractors (GROBID first,
  then pdfplumber) and fixed-size character windows with overlap. The
  extractors themselves are oracles: each either raises, answers `None`, or
  answers a text.
*/
module PdfParser {
  import opened Wrappers
  import opened Text
  import opened Windows

  // ---------------------------------------------------------------- character windows

  /** `text[i * step : i * step + chunkSize]`, Python slice semantics included. */
  function CharWindow(text: String, chunkSize: int, step: nat, i: nat): String {
    PySlice(text, i * step, i * step + chunkSize)
  }

  /**
    `PDFParser.chunk_text`: windows of `chunkSize` characters, each starting
    `chunkSize - overlap` characters after the previous one, while the start is
    inside the text. The loop only ends for a positive step, so the method asks
    for one.
  */
  method ChunkText(text: String, chunkSize: int, overlap: int) returns (chunks: seq<String>)
    requires chunkSize > overlap
    ensures |chunks| == WindowCount(|text|, chunkSize - overlap)
    ensures forall i :: 0 <= i < |chunks| ==> chunks[i] == CharWindow(text, chunkSize, chunkSize - overlap, i)
  {
    var step := chunkSize - overlap;
    chunks := [];
    var start := 0;
    while start < |text|
      invariant start == |chunks| * step
      invariant |chunks| == 0 || (|chunks| - 1) * step < |text|
      invariant forall i :: 0 <= i < |chunks| ==> chunks[i] == CharWindow(text, chunkSize, step, i)
      decreases |text| - start
    {
      var end := start + chunkSize;
      chunks := chunks + [PySlice(text, start, end)];
      start := start + step;
    }
    WindowCountExact(|text|, step, |chunks|);
    if |chunks| > 0 {
      WindowCountExact(|text|, step, |chunks| - 1);
    }
  }

  /**
    A window is the plain slice from its start to `chunkSize` characters further,
    cut at the end of the text; it is never longer than `chunkSize`, and exactly
    that long when it ends inside the text.
  */
  lemma CharWindowContents(text: String, chunkSize: int, overlap: int, i: nat)
    requires 0 <= overlap < chunkSize
    requires i < WindowCount(|text|, chunkSize - overlap)
    ensures var step := chunkSize - overlap;
            var lo := i * step;
            var hi := Min(lo + chunkSize, |text|);
            && 0 <= lo < hi <= |text|
            && CharWindow(text, chunkSize, step, i) == text[lo..hi]
            && |CharWindow(text, chunkSize, step, i)| <= chunkSize
            && (lo + chunkSize <= |text| ==> |CharWindow(text, chunkSize, step, i)| == chunkSize)
  {
    WindowCountExact(|text|, chunkSize - overlap, i);
  }

  /** Every character of the text lies in some window, at its offset from the window's start. */
  lemma CharWindowsCover(text: String, chunkSize: int, overlap: int, j: nat)
    requires 0 <= overlap < chunkSize
    requires j < |text|
    ensures var step := chunkSize - overlap;
            exists i :: 0 <= i < WindowCount(|text|, step) && i * step <= j < i * step + chunkSize
                        && j - i * step < |CharWindow(text, chunkSize, step, i)|
                        && CharWindow(text, chunkSize, step, i)[j - i * step] == text[j]
  {
    var step := chunkSize - overlap;
    var i := j / step;
    assert i * step <= j < i * step + step;
    WindowCountExact(|text|, step, i);
    CharWindowContents(text, chunkSize, overlap, i);
  }

  /** The last window ends at the text's last character. */
  lemma LastCharWindowEnds(text: String, chunkSize: int, overlap: int)
    requires 0 <= overlap < chunkSize
    requires text != []
    ensures var step := chunkSize - overlap;
            var last := WindowCount(|text|, step) - 1;
            && 0 <= last
            && last * step + chunkSize >= |text|
            && CharWindow(text, chunkSize, step, last) == text[last * step..]
  {
    var step := chunkSize - overlap;
    LastWindow(|text|, step, chunkSize);
    CharWindowContents(text, chunkSize, overlap, WindowCount(|text|, step) - 1);
  }

  /**
    A window that ends inside the text shares its last `overlap` characters with
    the first `overlap` characters of the next window.
  */
  lemma CharWindowsOverlap(text: String, chunkSize: int, overlap: int, i: nat)
    requires 0 <= overlap < chunkSize
    requires i + 1 < WindowCount(|text|, chunkSize - overlap)
    requires i * (chunkSize - overlap) + chunkSize <= |text|
    ensures var step := chunkSize - overlap;
            var a, b := CharWindow(text, chunkSize, step, i), CharWindow(text, chunkSize, step, i + 1);
            |a| == chunkSize && overlap <= |b| && a[step..] == b[..overlap]
  {
    var step := chunkSize - overlap;
    var lo := i * step;
    assert (i + 1) * step == lo + step;
    CharWindowContents(text, chunkSize, overlap, i);
    CharWindowContents(text, chunkSize, overlap, i + 1);
  }

  // ---------------------------------------------------------------- the fallback chain

  /** One extractor's `parse(path)`: it raises, or answers a text or `None`. */
  type Extractor = String -> Result<Option<String>, String>

  /** An answer the chain accepts: a non-empty text. */
  predicate Produced(r: Result<Option<String>, String>) {
    r.Success? && r.value.Some? && r.value.value != []
  }

  /** The position of the first extractor that produces a text, or the number of extractors. */
  function FirstProducer(extractors: seq<Extractor>, path: String): (i: nat)
    ensures i <= |extractors|
    ensures i < |extractors| ==> Produced(extractors[i](path))
    ensures forall j :: 0 <= j < i ==> !Produced(extractors[j](path))
  {
    if extractors == [] then 0
    else if Produced(extractors[0](path)) then 0
    else 1 + FirstProducer(extractors[1..], path)
  }

  /** The text `parse` settles on: the first extractor's non-empty text, else "". */
  function ChainText(pathExists: bool, extractors: seq<Extractor>, path: String): String {
    var i := FirstProducer(extractors, path);
    if pathExists && i < |extractors| then extractors[i](path).value.value else []
  }

  /**
    `PDFParser.parse`: a missing file gives "" before any extractor is asked;
    otherwise the extractors are asked in order until one answers a non-empty
    text, and a raising or empty answer moves on to the next one. `attempts`
    counts the extractors asked.
  */
  method Parse(pathExists: bool, path: String, extractors: seq<Extractor>) returns (text: String, attempts: nat)
    ensures text == ChainText(pathExists, extractors, path)
    ensures !pathExists ==> attempts == 0
    ensures pathExists ==> attempts == if FirstProducer(extractors, path) < |extractors| then FirstProducer(extractors, path) + 1 else |extractors|
  {
    attempts := 0;
    if !pathExists {
      return [], attempts;
    }
    var current: Option<String> := None;
    var k := 0;
    while k < |extractors|
      invariant 0 <= k <= |extractors| && attempts == k
      invariant forall j :: 0 <= j < k ==> !Produced(extractors[j](path))
      invariant current.None? || current.value == []
    {
      var answer := extractors[k](path);
      attempts := attempts + 1;
      if answer.Success? {
        current := answer.value;
        if current.Some? && current.value != [] {
          break;
        }
      }
      k := k + 1;
    }
    if current.None? || current.value == [] {
      return [], attempts;
    }
    text := current.value;
  }

  /** The configured chain: GROBID's text when it has one, else pdfplumber's, else "". */
  lemma GrobidThenPdfplumber(grobid: Extractor, pdfplumber: Extractor, path: String)
    ensures ChainText(true, [grobid, pdfplumber], path) ==
              if Produced(grobid(path)) then grobid(path).value.value
              else if Produced(pdfplumber(path)) then pdfplumber(path).value.value
              else []
  {
    var es := [grobid, pdfplumber];
    assert es[1..] == [pdfplumber];
    assert [pdfplumber][1..] == [];
    if !Produced(grobid(path)) {
      assert FirstProducer(es, path) == 1 + FirstProducer([pdfplumber], path);
    }
  }

  /** `parse` answers a non-empty text exactly when the file exists and some extractor produces one. */
  lemma ChainTextNonEmpty(pathExists: bool, extractors: seq<Extractor>, path: String)
    ensures ChainText(pathExists, extractors, path) != [] <==>
              pathExists && exists j :: 0 <= j < |extractors| && Produced(extractors[j](path))
  {
    var i := FirstProducer(extractors, path);
    if pathExists && (exists j :: 0 <= j < |extractors| && Produced(extractors[j](path))) {
      var j :| 0 <= j < |extractors| && Produced(extractors[j](path));
      assert i <= j;
    }
  }
}
