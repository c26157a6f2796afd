/**
  The data handling inside the daily ingestion tasks: the metadata dict built
  for each fetched paper, the NUL cleaning of chunk texts before they are
  stored, and the selection of the chunk rows and index documents.
*/
module IngestDag {
  import opened Wrappers
  import opened Text
  import opened Values
  import IndexClient

  // ---------------------------------------------------------------- cleaning

  const Nul: char := '\0'

  /**
    `clean_text_for_db`: a falsy text (`None` or "") comes back as it is; any
    other text loses every NUL character and keeps the rest in order.
  */
  function CleanTextForDb(text: Option<String>): (r: Option<String>)
    ensures text.None? || text.value == [] ==> r == text
    ensures text.Some? && text.value != [] ==> r == Some(Without(text.value, Nul))
  {
    if text.None? || text.value == [] then text
    else
      ReplaceByEmptyIsWithout(text.value, Nul);
      Some(ReplaceAll(text.value, [Nul], []))
  }

  /** A cleaned text holds no NUL, and holds every other character as often as before. */
  lemma CleanRemovesOnlyNul(text: String)
    ensures var r := CleanTextForDb(Some(text)).value;
            && Nul !in r
            && multiset(r) == multiset(text)[Nul := 0]
  {
    if text != [] {
      WithoutMultiset(text, Nul);
    }
  }

  /** Cleaning keeps order: the cleaning of a concatenation is the concatenation of the cleanings. */
  lemma CleanKeepsOrder(a: String, b: String)
    ensures CleanTextForDb(Some(a + b)).value == CleanTextForDb(Some(a)).value + CleanTextForDb(Some(b)).value
  {
    WithoutConcat(a, b, Nul);
    if a == [] {
      assert a + b == b;
    }
    if b == [] {
      assert a + b == a;
    }
  }

  /** Cleaning twice is cleaning once. */
  lemma CleanIdempotent(text: Option<String>)
    ensures CleanTextForDb(CleanTextForDb(text)) == CleanTextForDb(text)
  {
    var once := CleanTextForDb(text);
    if once.Some? && once.value != [] {
      ReplaceByEmptyIsWithout(once.value, Nul);
      ReplaceAbsent(once.value, Nul, []);
    }
  }

  /** `[clean_text_for_db(chunk) for chunk in chunks]`: no stored chunk text holds a NUL. */
  function CleanedChunks(chunks: seq<String>): (cleaned: seq<String>)
    ensures |cleaned| == |chunks|
    ensures forall i :: 0 <= i < |chunks| ==> Nul !in cleaned[i]
    ensures forall i :: 0 <= i < |chunks| ==> cleaned[i] == Without(chunks[i], Nul)
  {
    seq(|chunks|, i requires 0 <= i < |chunks| => CleanTextForDb(Some(chunks[i])).value)
  }

  // ---------------------------------------------------------------- paper metadata

  /** `p.get("published_year") and f"{...}-01-01"`: a falsy year is passed on as it is. */
  function PublishedDate(p: Dict): Value {
    var year := Get(p, "published_year", Null);
    if Truthy(year) then Str(Display(year) + "-01-01") else year
  }

  /** The `meta` dict of `task_store_metadata`; a `KeyError` without an arXiv id. */
  function MetaOf(p: Dict): (r: Result<Dict, String>)
    ensures r.Success? <==> "arxiv_id" in p
    ensures r.Failure? ==> r.error == "KeyError"
    ensures r.Success? ==> r.value.Keys == {"arxiv_id", "title", "authors", "abstract", "published_date", "pdf_url"}
    ensures r.Success? ==> r.value["arxiv_id"] == p["arxiv_id"] && r.value["title"] == Get(p, "title", Null)
    ensures r.Success? ==> r.value["authors"] == Get(p, "authors", Str("")) && r.value["abstract"] == Get(p, "abstract", Str(""))
    ensures r.Success? ==> r.value["pdf_url"] == Get(p, "pdf_url", Null)
    ensures r.Success? ==> r.value["published_date"] == PublishedDate(p)
  {
    if "arxiv_id" !in p then Failure("KeyError")
    else
      Success(map[
        "arxiv_id" := p["arxiv_id"],
        "title" := Get(p, "title", Null),
        "authors" := Get(p, "authors", Str("")),
        "abstract" := Get(p, "abstract", Str("")),
        "published_date" := PublishedDate(p),
        "pdf_url" := Get(p, "pdf_url", Null)])
  }

  /**
    Every meta the task builds can be indexed: the paper document never misses a
    key, and its `published_at` is the meta's publication date.
  */
  lemma MetaIsIndexable(p: Dict)
    requires MetaOf(p).Success?
    ensures var meta := MetaOf(p).value;
            && IndexClient.PaperDoc(meta).Success?
            && IndexClient.PaperDoc(meta).value["published_at"] == PublishedDate(p)
            && IndexClient.PaperDoc(meta).value["abstract"] == Get(p, "abstract", Str(""))
  {
  }

  /**
    The download task reads the year back with `int(date.split('-')[0])`: for a
    positive year that gives the year the store task wrote.
  */
  lemma PublishedYearRecoverable(year: int)
    requires year > 0
    ensures var date := PublishedDate(map["published_year" := Int(year)]);
            && date.Str?
            && ParseInt(SplitOn(date.s, '-')[0]) == Some(year)
  {
    var digits := IntToString(year);
    var date := digits + "-01-01";
    assert PublishedDate(map["published_year" := Int(year)]) == Str(date);
    assert '-' !in digits by {
      DigitsOfNat(year);
    }
    assert IndexOf(date, '-') == |digits| by {
      IndexOfAfter(digits, "-01-01");
    }
    assert date[..|digits|] == digits;
    ParseIntOfString(year);
  }

  lemma {:induction false} IndexOfAfter(a: String, b: String)
    requires '-' !in a && b != [] && b[0] == '-'
    ensures IndexOf(a + b, '-') == |a|
  {
    if a != [] {
      assert (a + b)[1..] == a[1..] + b;
      IndexOfAfter(a[1..], b);
    }
  }

  // ---------------------------------------------------------------- chunk rows and documents

  /** `txt and txt.strip()`: the text is worth storing. */
  predicate NonBlank(text: String) {
    text != [] && Strip(text) != []
  }

  /** The test `txt and txt.strip()` as the loops evaluate it. */
  method IsNonBlank(text: String) returns (b: bool)
    ensures b == NonBlank(text)
  {
    b := text != [] && Strip(text) != [];
  }

  /** `Chunk(paper_id=..., text=..., chunk_idx=...)`. */
  datatype ChunkRow = ChunkRow(paperId: int, text: String, chunkIdx: nat)

  /** The document indexed for one chunk. */
  datatype ChunkDoc = ChunkDoc(paperId: int, arxivId: Value, chunkIdx: nat, text: String, embedding: seq<real>)

  /** The positions below `n` of the chunks worth storing, in order. */
  function Selected(cleaned: seq<String>, n: nat): (sel: seq<nat>)
    requires n <= |cleaned|
    ensures forall r :: 0 <= r < |sel| ==> sel[r] < n
  {
    if n == 0 then []
    else Selected(cleaned, n - 1) + (if NonBlank(cleaned[n - 1]) then [n - 1] else [])
  }

  /** The selection holds exactly the non-blank positions below `n`, increasing. */
  lemma SelectedShape(cleaned: seq<String>, n: nat)
    requires n <= |cleaned|
    ensures var sel := Selected(cleaned, n);
            && (forall r :: 0 <= r < |sel| ==> NonBlank(cleaned[sel[r]]))
            && (forall r1, r2 :: 0 <= r1 < r2 < |sel| ==> sel[r1] < sel[r2])
            && (forall i :: 0 <= i < n && NonBlank(cleaned[i]) ==> i in sel)
  {
    SelectedKept(cleaned, n);
    SelectedIncreasing(cleaned, n);
    SelectedComplete(cleaned, n);
  }

  lemma {:induction false} SelectedKept(cleaned: seq<String>, n: nat)
    requires n <= |cleaned|
    ensures forall r :: 0 <= r < |Selected(cleaned, n)| ==> NonBlank(cleaned[Selected(cleaned, n)[r]])
  {
    if n > 0 {
      SelectedKept(cleaned, n - 1);
    }
  }

  lemma {:induction false} SelectedIncreasing(cleaned: seq<String>, n: nat)
    requires n <= |cleaned|
    ensures forall r1, r2 :: 0 <= r1 < r2 < |Selected(cleaned, n)| ==> Selected(cleaned, n)[r1] < Selected(cleaned, n)[r2]
  {
    if n > 0 {
      SelectedIncreasing(cleaned, n - 1);
    }
  }

  lemma SelectedComplete(cleaned: seq<String>, n: nat)
    requires n <= |cleaned|
    ensures forall i :: 0 <= i < n && NonBlank(cleaned[i]) ==> i in Selected(cleaned, n)
  {
    forall i | 0 <= i < n && NonBlank(cleaned[i])
      ensures i in Selected(cleaned, n)
    {
      SelectedHas(cleaned, n, i);
    }
  }

  lemma {:induction false} SelectedHas(cleaned: seq<String>, n: nat, i: nat)
    requires i < n <= |cleaned| && NonBlank(cleaned[i])
    ensures i in Selected(cleaned, n)
  {
    var before := Selected(cleaned, n - 1);
    if i < n - 1 {
      SelectedHas(cleaned, n - 1, i);
      var k :| 0 <= k < |before| && before[k] == i;
      assert Selected(cleaned, n)[k] == i;
    } else {
      assert Selected(cleaned, n) == before + [n - 1];
      assert Selected(cleaned, n)[|before|] == i;
    }
  }

  /** One row per selected position, in order. */
  function RowsOf(paperId: int, cleaned: seq<String>): (rows: seq<ChunkRow>)
    ensures var sel := Selected(cleaned, |cleaned|);
            |rows| == |sel| && forall r :: 0 <= r < |rows| ==> rows[r] == ChunkRow(paperId, cleaned[sel[r]], sel[r])
  {
    var sel := Selected(cleaned, |cleaned|);
    seq(|sel|, r requires 0 <= r < |sel| => ChunkRow(paperId, cleaned[sel[r]], sel[r]))
  }

  /**
    The rows `task_parse_chunk_embed_index` adds for a paper: one per non-blank
    cleaned chunk, in order, each carrying the chunk's position in the full list.
  */
  method ChunkRows(paperId: int, cleaned: seq<String>) returns (rows: seq<ChunkRow>)
    ensures rows == RowsOf(paperId, cleaned)
  {
    rows := [];
    for idx := 0 to |cleaned|
      invariant |rows| == |Selected(cleaned, idx)|
      invariant forall r :: 0 <= r < |rows| ==> rows[r] == ChunkRow(paperId, cleaned[Selected(cleaned, idx)[r]], Selected(cleaned, idx)[r])
    {
      var txt := cleaned[idx];
      var keep := IsNonBlank(txt);
      if keep {
        rows := rows + [ChunkRow(paperId, txt, idx)];
      }
    }
  }

  /**
    The stored rows are exactly the non-blank cleaned chunks, in order, each
    under its position in the full list and the paper's id.
  */
  lemma RowsOfShape(paperId: int, cleaned: seq<String>)
    ensures var rows := RowsOf(paperId, cleaned);
            && (forall r :: 0 <= r < |rows| ==>
                  && rows[r].paperId == paperId && rows[r].chunkIdx < |cleaned|
                  && rows[r].text == cleaned[rows[r].chunkIdx] && NonBlank(rows[r].text))
            && (forall r1, r2 :: 0 <= r1 < r2 < |rows| ==> rows[r1].chunkIdx < rows[r2].chunkIdx)
            && (forall i :: 0 <= i < |cleaned| && NonBlank(cleaned[i]) ==> exists r :: 0 <= r < |rows| && rows[r].chunkIdx == i)
  {
    var rows := RowsOf(paperId, cleaned);
    var sel := Selected(cleaned, |cleaned|);
    SelectedShape(cleaned, |cleaned|);
    forall i | 0 <= i < |cleaned| && NonBlank(cleaned[i])
      ensures exists r :: 0 <= r < |rows| && rows[r].chunkIdx == i
    {
      var r :| 0 <= r < |sel| && sel[r] == i;
      assert rows[r].chunkIdx == i;
    }
  }

  /** The documents for the first `n` positions, one per selected position. */
  function DocsOf(paperId: int, arxivId: Value, cleaned: seq<String>, embeddings: seq<seq<real>>): (docs: seq<ChunkDoc>)
    ensures var n := if |cleaned| <= |embeddings| then |cleaned| else |embeddings|;
            var sel := Selected(cleaned, n);
            |docs| == |sel| && forall r :: 0 <= r < |docs| ==> docs[r] == ChunkDoc(paperId, arxivId, sel[r], cleaned[sel[r]], embeddings[sel[r]])
  {
    var n := if |cleaned| <= |embeddings| then |cleaned| else |embeddings|;
    var sel := Selected(cleaned, n);
    seq(|sel|, r requires 0 <= r < |sel| => ChunkDoc(paperId, arxivId, sel[r], cleaned[sel[r]], embeddings[sel[r]]))
  }

  /**
    The documents sent to the chunk index: `zip` stops at the shorter of the
    cleaned chunks and the embeddings, and blank chunks are skipped; each
    document pairs a chunk with the embedding at the same position.
  */
  method ChunkDocs(paperId: int, arxivId: Value, cleaned: seq<String>, embeddings: seq<seq<real>>) returns (docs: seq<ChunkDoc>)
    ensures docs == DocsOf(paperId, arxivId, cleaned, embeddings)
  {
    docs := [];
    var n := if |cleaned| <= |embeddings| then |cleaned| else |embeddings|;
    for idx := 0 to n
      invariant |docs| == |Selected(cleaned, idx)|
      invariant forall r :: 0 <= r < |docs| ==>
                  var i := Selected(cleaned, idx)[r];
                  docs[r] == ChunkDoc(paperId, arxivId, i, cleaned[i], embeddings[i])
    {
      var txt, emb := cleaned[idx], embeddings[idx];
      var keep := IsNonBlank(txt);
      if keep {
        docs := docs + [ChunkDoc(paperId, arxivId, idx, txt, emb)];
      }
    }
  }

  /**
    Each document pairs a non-blank chunk with the embedding at its own
    position; chunk indices increase; every non-blank chunk that has an
    embedding is sent.
  */
  lemma DocsOfShape(paperId: int, arxivId: Value, cleaned: seq<String>, embeddings: seq<seq<real>>)
    ensures var docs := DocsOf(paperId, arxivId, cleaned, embeddings);
            && (forall r :: 0 <= r < |docs| ==>
                  && docs[r].paperId == paperId && docs[r].arxivId == arxivId
                  && docs[r].chunkIdx < |cleaned| && docs[r].chunkIdx < |embeddings|
                  && docs[r].text == cleaned[docs[r].chunkIdx] && NonBlank(docs[r].text)
                  && docs[r].embedding == embeddings[docs[r].chunkIdx])
            && (forall r1, r2 :: 0 <= r1 < r2 < |docs| ==> docs[r1].chunkIdx < docs[r2].chunkIdx)
            && (forall i :: 0 <= i < |cleaned| && i < |embeddings| && NonBlank(cleaned[i]) ==>
                  exists r :: 0 <= r < |docs| && docs[r].chunkIdx == i)
  {
    var docs := DocsOf(paperId, arxivId, cleaned, embeddings);
    var n := if |cleaned| <= |embeddings| then |cleaned| else |embeddings|;
    var sel := Selected(cleaned, n);
    SelectedKept(cleaned, n);
    SelectedIncreasing(cleaned, n);
    forall i | 0 <= i < |cleaned| && i < |embeddings| && NonBlank(cleaned[i])
      ensures exists r :: 0 <= r < |docs| && docs[r].chunkIdx == i
    {
      SelectedHas(cleaned, n, i);
      var r :| 0 <= r < |sel| && sel[r] == i;
      assert docs[r].chunkIdx == i;
    }
  }
}
