# ArXiv RAG pipeline — a verified model of its core logic

The ArXiv RAG pipeline ingests arXiv papers and serves search and question answering over them:

- An Airflow DAG fetches an Atom feed from the arXiv API and stores each paper's metadata in a `papers` table.
- It downloads the PDFs, extracts their text, and splits the text into chunks.
- It embeds the chunks and indexes papers and chunks in OpenSearch.
- A FastAPI service answers `/search` with BM25, k-NN or hybrid search, where hybrid results are merged by Reciprocal Rank Fusion (RRF).
- A streaming route prepares chunks and source links for an LLM.

This project models the deterministic logic behind those steps in Dafny and proves what it promises:

- the two RRF variants: `rrf_fuse`, with 1-based ranks keyed on `_id`, and `search_hybrid`, with 0-based ranks keyed on `arxiv_id`, over-fetching and falling back to BM25;
- the hit normalisation of `/search`, with its fail-safe empty response;
- the chunk and source preparation of the streaming route;
- the query, bulk and document bodies sent to OpenSearch;
- the section-aware word chunker, the small-chunk merger and the character chunker;
- the PDF parser's fallback chain;
- `upsert_paper` over a map-backed table;
- the two arXiv clients: query strings, id and PDF URL handling, Atom entry mapping, the `%PDF-` check and the download retry schedule;
- the DAG's NUL cleaning, metadata mapping and chunk-row selection.

Every external service is an input to the model, and may fail:

- OpenSearch;
- the embedding service;
- HTTP to arXiv;
- the XML and PDF libraries;
- the SQL session.

Module layout, one module per source file:

| module | source file |
|---|---|
| `Wrappers`, `Text`, `Values`, `Xml`, `Windows` | shared helpers: `Option`/`Result`, Python string built-ins, JSON-like values, abstract XML elements, window arithmetic |
| `Fusion` | the RRF scoring and the stable descending sort shared by both RRF variants |
| `QueryBuilder` | `api/src/services/query_builder.py` |
| `Retrieval` | `ingestion/opensearchRetrieval.py` |
| `SearchApi` | `api/src/main.py` |
| `Streaming` | `src/routers/streaming.py` |
| `PaperSearch` | `ingestion/opensearchSearch.py` |
| `IndexClient` | `ingestion/opensearchClient.py` |
| `SectionChunker` | `ingestion/sectionChunker.py` |
| `PdfParser` | `ingestion/parser/parser.py` |
| `PaperDb` | `ingestion/db.py` |
| `ArxivService` | `src/services/arxiv/arxivClient.py` |
| `ArxivFeed` | `ingestion/client/arxivClient.py` |
| `IngestDag` | `airflow/dags/ingestArxiv.py` |

How the source's code becomes Dafny:

- Loops that fill a dict, append to a list or advance a cursor are methods with loop invariants. Each method is proved equal to a specification function, and the lemmas state the properties of that function.
- The `papers` table is a class whose `Upsert` method updates its fields.
- Python exceptions are `Failure` values.
- Division by zero, a missing key and an unparsable integer each become the error the source would raise.
- RRF scores are exact `real` values.

## Model

| member | source | states |
|---|---|---|
| Fusion.FirstSeen | api/src/services/query_builder.py:48 | the dict's key order: every id once, exactly the ids of the input, no more entries than ids |
| Fusion.FirstSeenAppend | api/src/services/query_builder.py:44 | reading one more id appends it to the key order exactly when it is new |
| Fusion.RankSumAppend | api/src/services/query_builder.py:44 | one more hit adds its `1/(k+rank)` to its own id's score and nothing to any other id |
| Fusion.RankSumAbsent | ingestion/opensearchRetrieval.py:69-71 | an id that never occurs scores 0 |
| Fusion.RankSumOnce | ingestion/opensearchRetrieval.py:69-71 | an id occurring once, at position i, scores exactly `1/(k+base+i)` |
| Fusion.RankSumPositive | ingestion/opensearchRetrieval.py:69-71 | with a positive denominator base, a score is never negative, and is positive exactly when the id occurs |
| Fusion.RrfScores | ingestion/opensearchRetrieval.py:67-73 | one entry per distinct id in first-seen order, each carrying the sum of its contributions from both lists |
| Fusion.TallyStep | ingestion/opensearchRetrieval.py:70-71 | one `scores[id] = scores.get(id, 0) + 1/(k+rank)` step keeps the dict equal to the fused scores of the ids read so far |
| Fusion.AddAllBoth | ingestion/opensearchRetrieval.py:67-71 | after both accumulation loops, the dict holds one key per distinct id in first-seen order, with its fused score |
| Fusion.TallyItems | ingestion/opensearchRetrieval.py:73 | the dict's items, in insertion order, are the fused scores |
| Fusion.SortDescProps | api/src/services/query_builder.py:49 | `sorted(..., reverse=True)` returns a non-increasing permutation of its input |
| Fusion.SortDescStable | api/src/services/query_builder.py:49 | the sort is stable: entries sharing a score keep their input order |
| Fusion.SortDescDistinct | ingestion/opensearchRetrieval.py:73 | distinct ids stay distinct through the sort |
| QueryBuilder.BuildBm25 | api/src/services/query_builder.py:4-25 | the body carries the size and the source fields; the query is the bare multi_match over title^3, abstract^2, authors^1 exactly when no ids or an empty list is given, and otherwise that multi_match as the only `must` under a `terms` filter on the ids |
| QueryBuilder.Bm25FilterWrapsPlain | api/src/services/query_builder.py:18-24 | the id-filtered body wraps exactly the unfiltered query and keeps size and source fields |
| QueryBuilder.BuildKnn | api/src/services/query_builder.py:27-38 | the neighbour count equals the size; the vector is the query embedding, on field `embedding` |
| QueryBuilder.AccumulateRanks | api/src/services/query_builder.py:41-47 | one accumulation loop adds `1/(k+rank)` with 1-based ranks; it fails exactly where `k + rank` is zero |
| QueryBuilder.EntriesFused | api/src/services/query_builder.py:41-48 | the entries built from the dict after both loops are the fused entries |
| QueryBuilder.RrfFuse | api/src/services/query_builder.py:40-49 | `rrf_fuse` succeeds exactly when no `k + rank` is zero, and then returns the sorted fused entries |
| QueryBuilder.RrfOneEntryPerId | api/src/services/query_builder.py:41-48 | exactly one entry per distinct `_id` of both inputs, with nothing cut off |
| QueryBuilder.RrfHasId | api/src/services/query_builder.py:41-48 | an id has an entry exactly when it occurs in either list |
| QueryBuilder.RrfScoresAndSources | api/src/services/query_builder.py:41-52 | every score is the sum of `1/(k+rank)` over all positions of the id in both lists, and every `_source` is `{}` |
| QueryBuilder.RrfAgreementAdds | api/src/services/query_builder.py:42-47 | an id found once in each list, at ranks p+1 and q+1, scores `1/(k+p+1) + 1/(k+q+1)` |
| QueryBuilder.RrfSorted | api/src/services/query_builder.py:49 | the result is in non-increasing score order |
| QueryBuilder.RrfTiesFirstSeen | api/src/services/query_builder.py:48-49 | equal scores keep first-seen order, so BM25 ids come before ids only the k-NN list has |
| QueryBuilder.RrfEmpty | api/src/services/query_builder.py:40-49 | fusing two empty lists gives an empty list |
| QueryBuilder.RrfTieExample | api/src/services/query_builder.py:40-49 | two ids ranked 1st/2nd and 2nd/1st tie, and the one BM25 ranked first stays first |
| Retrieval.SearchVector | ingestion/opensearchRetrieval.py:19-39 | a failed embedding gives `[]`; otherwise the k-NN body, with k and size both `top_k`, is sent and its answer returned |
| Retrieval.SearchBm25Chunks | ingestion/opensearchRetrieval.py:41-52 | the match body over `text^2` and `section`, with the given size, is sent and its answer returned |
| Retrieval.SearchHybrid | ingestion/opensearchRetrieval.py:54-77 | both searches ask for `2*top_k`; a BM25 failure propagates; a failed or empty vector search gives `bm25_res[:top_k]`; a hit without `arxiv_id` raises `KeyError`; otherwise the fused top `top_k` |
| Retrieval.AccumulateDocs | ingestion/opensearchRetrieval.py:67-71 | one accumulation loop adds `1/(60+rank)` with 0-based ranks; it fails exactly when some doc has no `arxiv_id` |
| Retrieval.HybridRankedKnown | ingestion/opensearchRetrieval.py:73-77 | every kept id has a doc in `id_to_doc` |
| Retrieval.IdToDocKeys | ingestion/opensearchRetrieval.py:76 | the keys of `id_to_doc` are exactly the ids of the docs |
| Retrieval.IdToDocLast | ingestion/opensearchRetrieval.py:76 | `id_to_doc` keeps the last doc carrying each id |
| Retrieval.IdToDocConcat | ingestion/opensearchRetrieval.py:76 | building the dict from `bm25_res + vector_res` lets vector docs override BM25 docs |
| Retrieval.HybridRankedProps | ingestion/opensearchRetrieval.py:73 | exactly `min(top_k, n)` entries for the `n` distinct ids (Python's slice length for a negative `top_k`), no repeated id, non-increasing scores, each entry an id of the inputs with its fused score |
| Retrieval.HybridKeepsBest | ingestion/opensearchRetrieval.py:73 | no id left out of the top `top_k` scores more than a kept one |
| Retrieval.HybridTiesFirstSeen | ingestion/opensearchRetrieval.py:73 | among kept entries, equal scores are in first-seen order |
| Retrieval.HybridPayloads | ingestion/opensearchRetrieval.py:76-77 | one doc per kept id, in ranking order; it is the last doc with that id, and the vector doc whenever the vector search returned the id |
| Retrieval.HybridFallbackIsBm25Head | ingestion/opensearchRetrieval.py:55-65 | the fallback answer is a prefix of the BM25 hits of length `min(top_k, len)` |
| Retrieval.HybridAgreementAdds | ingestion/opensearchRetrieval.py:67-71 | a doc found once by each search, at 0-based ranks p and q, scores `1/(60+p) + 1/(60+q)` |
| SearchApi.MakeSearchRequest | api/src/main.py:10-18 | a request validates exactly when `size` (default 10) lies in [1, 100]; absent fields take their declared defaults |
| SearchApi.OrChunkPrefix | api/src/main.py:81-82 | a truthy field is kept; otherwise the first n characters of `chunk_text` plus "...", and a non-string chunk text raises |
| SearchApi.OptionalStr | api/src/main.py:92 | an absent or null `section` is `None`, a string is kept, anything else fails validation |
| SearchApi.NormalizeHit | api/src/main.py:75-93 | a hit normalises exactly when `arxiv_id` and `authors` are strings or absent, title and abstract are strings after the chunk-text fallback, and `section` is absent, null or a string; it then takes `arxiv_id` (default ""), `authors` (default "N/A"), `section`, score and the requested mode from the raw hit |
| SearchApi.NormalizeAll | api/src/main.py:74-93 | a successful loop gives one hit per raw hit |
| SearchApi.SearchPapers | api/src/main.py:57-112 | the response is the one `Respond` builds from the engine's answer to the request |
| SearchApi.NormalizeAllStops | api/src/main.py:74-93 | one hit that fails to normalise makes the whole loop fail |
| SearchApi.NormalizeAllPointwise | api/src/main.py:74-93 | on success, hit i is the normalisation of raw hit i, in order |
| SearchApi.NormalizeAllSucceeds | api/src/main.py:74-93 | the loop succeeds when every hit normalises |
| SearchApi.RespondShape | api/src/main.py:95-112 | the response is the fail-safe one, or carries the engine's total, one hit per raw hit, the engine's mode (else the requested one) and the took time |
| SearchApi.RespondFailSafeWhen | api/src/main.py:60-112 | the response is `total=0, hits=[], took=0.0` in the requested mode when the engine raised, a hit failed or the total is missing; otherwise it is the engine's total, every hit normalised in order, the engine's mode (else the requested one) and `took * 1000` |
| SearchApi.NormalizedText | api/src/main.py:81-82 | title and abstract are never empty: the stored truthy value, or a chunk-text prefix of at most 100 or 200 characters followed by "..." |
| SearchApi.NormalizedOriginalScore | api/src/main.py:90 | `original_score` is `None` exactly when absent or zero, and is echoed otherwise |
| PaperSearch.SearchBodyShape | ingestion/opensearchSearch.py:74-105 | `must` holds the multi_match over title^3, abstract, authors exactly when a query is given; the category term filter exactly when a category is given; the range filter last, exactly when a year is given, with `gte` and `lte` each present exactly when its year is |
| PaperSearch.SourcesOf | ingestion/opensearchSearch.py:108 | the `_source` of each hit in order, or `KeyError` when a hit has none |
| PaperSearch.SearchPapers | ingestion/opensearchSearch.py:74-108 | the appending method builds that body, sends it to the papers index and returns the sources; engine errors propagate |
| PaperSearch.YearBoundsRecoverable | ingestion/opensearchSearch.py:92-94 | each bound is the year's digits followed by `-01-01` or `-12-31`, and the year parses back |
| Streaming.EmbeddingFor | src/routers/streaming.py:22-33 | an embedding exists exactly when hybrid is requested and the embedding call succeeds |
| Streaming.UnifiedQueryFor | src/routers/streaming.py:38-46 | the search runs hybrid exactly when an embedding exists, with `size=top_k`, `from_=0`, `min_score=0.0` |
| Streaming.ChunkOf | src/routers/streaming.py:53-59 | a chunk carries the hit's `arxiv_id` (default "") and its `chunk_text`, else its `abstract`, else "" |
| Streaming.PrepareChunksAndSources | src/routers/streaming.py:15-71 | a search failure propagates; otherwise one chunk per hit in order, the sources of the hits, and mode "hybrid" exactly when an embedding was used |
| Streaming.SourcesOfSnoc | src/routers/streaming.py:63-66 | one more hit adds its PDF link to the set exactly when it has an id |
| Streaming.SourcesAtMostHits | src/routers/streaming.py:50-69 | there are never more sources than hits |
| Streaming.SourcesMembership | src/routers/streaming.py:62-69 | a link is a source exactly when some hit with a non-empty id produces it |
| Streaming.VersionsShareSource | src/routers/streaming.py:64 | two versions of one paper share one PDF link |
| IndexClient.ActionsOf | ingestion/opensearchClient.py:152-155 | one index action per chunk, on the chunks index with id `<arxiv_id>_<chunk_idx>`, or `KeyError` when a chunk lacks a key |
| IndexClient.Interleave | ingestion/opensearchClient.py:165-168 | the body has length 2n and alternates action i and document i |
| IndexClient.IndexChunksBulk | ingestion/opensearchClient.py:147-176 | nothing is ever raised: a missing key or a failing call ends in a logged failure; otherwise the interleaved body is sent, and a response flagging errors is logged as such |
| IndexClient.ChunkIdInjective | ingestion/opensearchClient.py:153 | two chunks get the same bulk id only when both arXiv id and index agree |
| IndexClient.PaperDoc | ingestion/opensearchClient.py:136-143 | `KeyError` without arXiv id, title or abstract; otherwise exactly six keys, with `authors` and `categories` defaulting to `[]` and `published_at` copied from `published_date` |
| IndexClient.IndexPaperMeta | ingestion/opensearchClient.py:135-144 | the document is indexed in `papers` under the paper's arXiv id |
| IndexClient.PaperDocIgnoresOtherKeys | ingestion/opensearchClient.py:136-143 | keys the document does not read never influence it |
| SectionChunker.Lines | ingestion/sectionChunker.py:30 | `strip().split("\n")` gives at least one line |
| SectionChunker.SplitSection | ingestion/sectionChunker.py:30-36 | a section's name is its stripped first line and its body the rest |
| SectionChunker.JoinWindow | ingestion/sectionChunker.py:46-47 | the joined and stripped window is the window's text |
| SectionChunker.StripOfWindow | ingestion/sectionChunker.py:47 | `strip()` leaves a space-joined window of words unchanged |
| SectionChunker.ChunkBody | ingestion/sectionChunker.py:41-54 | the inner loop produces the windows starting every `target_words - overlap_words` words |
| SectionChunker.ChunkSection | ingestion/sectionChunker.py:29-54 | one pass of the section loop gives that section's chunks; an empty body gives none |
| SectionChunker.SectionAwareChunking | ingestion/sectionChunker.py:6-56 | the chunks of all sections, in section order |
| SectionChunker.WindowChunkCount | ingestion/sectionChunker.py:42-54 | a body of n words gives `ceil(n / step)` chunks |
| SectionChunker.WindowContents | ingestion/sectionChunker.py:45-47 | chunk k is the run of at most `target_words` words from `k * step`, splits back into exactly those words, and carries the section's name |
| SectionChunker.WindowsCover | ingestion/sectionChunker.py:41-54 | every body word lies in some chunk |
| SectionChunker.LastWindowEnds | ingestion/sectionChunker.py:41-54 | the last chunk ends at the body's last word |
| SectionChunker.WindowsOverlap | ingestion/sectionChunker.py:42-54 | a full chunk and the next share exactly `overlap_words` words |
| SectionChunker.MergeSmallChunks | ingestion/sectionChunker.py:59-75 | the merging loop computes the specified merge |
| SectionChunker.PiecesShape | ingestion/sectionChunker.py:59-75 | the grouping behind the output: the input chunks in order; kept chunks are never small; runs are non-empty, never adjacent, and labelled with the preceding kept chunk's section, else the first non-empty buffered one, else "unknown" |
| SectionChunker.MergedKeepsText | ingestion/sectionChunker.py:59-75 | joining the output texts with spaces gives the joined input texts: nothing lost, added or reordered |
| SectionChunker.MergedNoLonger | ingestion/sectionChunker.py:59-75 | the output is never longer than the input, and as long exactly when every run is a single chunk |
| SectionChunker.MergeNothingSmall | ingestion/sectionChunker.py:62-71 | chunks that are all large and labelled pass through unchanged |
| SectionChunker.MergeIdempotent | ingestion/sectionChunker.py:59-75 | merging merged chunks again changes nothing |
| PdfParser.ChunkText | ingestion/parser/parser.py:71-79 | `ceil(len / step)` chunks, chunk i being `text[i*step : i*step + chunk_size]` |
| PdfParser.CharWindowContents | ingestion/parser/parser.py:76-77 | a window is a plain slice, at most `chunk_size` long, and exactly that long when it ends inside the text |
| PdfParser.CharWindowsCover | ingestion/parser/parser.py:75-78 | every character lies in some window at its offset |
| PdfParser.LastCharWindowEnds | ingestion/parser/parser.py:75-78 | the last window ends at the text's end |
| PdfParser.CharWindowsOverlap | ingestion/parser/parser.py:76-78 | a full window and the next share `overlap` characters |
| PdfParser.FirstProducer | ingestion/parser/parser.py:56-63 | the first extractor with a non-empty text, every earlier one having raised or answered empty |
| PdfParser.Parse | ingestion/parser/parser.py:50-69 | a missing file gives "" without asking any extractor; otherwise the first non-empty text, else "", after asking exactly the extractors up to that one |
| PdfParser.GrobidThenPdfplumber | ingestion/parser/parser.py:44-63 | the configured chain gives GROBID's text, else pdfplumber's, else "" |
| PdfParser.ChainTextNonEmpty | ingestion/parser/parser.py:56-69 | the text is non-empty exactly when the file exists and some extractor produces text |
| PaperDb.PaperTable.constructor | ingestion/db.py:14-24 | an empty table whose first primary key is 1 |
| PaperDb.PaperTable.Upsert | ingestion/db.py:45-70 | the table's integrity is kept, and the row returned and the new table are those the upsert rules give |
| PaperDb.UpsertKeepsTableOk | ingestion/db.py:16-17 | each row sits under its own non-null arXiv id, with distinct primary keys, after every upsert |
| PaperDb.UpsertOneRow | ingestion/db.py:49-70 | after a successful upsert exactly one row has the id and it is the one returned; the row count grows exactly when the id was new; a failure changes nothing |
| PaperDb.UpsertInsertFields | ingestion/db.py:50-61 | an insert copies all fields from the arguments and takes the next primary key |
| PaperDb.UpsertUpdateFields | ingestion/db.py:62-69 | an update overwrites title, authors, abstract and PDF URL (missing keys become NULL); it keeps the primary key, arXiv id and publication date; it changes the path only for a non-empty `pdf_path` |
| PaperDb.UpsertOthersUntouched | ingestion/db.py:45-70 | rows of other papers are untouched |
| PaperDb.UpsertIdempotent | ingestion/db.py:45-70 | upserting the same metadata twice equals upserting it once |
| ArxivService.IsPdfBytes | src/services/arxiv/arxivClient.py:33-34 | true exactly when the data starts with `%PDF-` |
| ArxivService.CategoryTerms | src/services/arxiv/arxivClient.py:101 | one `cat:` term per category, in order |
| ArxivService.DateClause | src/services/arxiv/arxivClient.py:104-107 | the date clause is empty exactly when neither bound is given |
| ArxivService.BuildSearchQuery | src/services/arxiv/arxivClient.py:96-107 | the query is the category part followed by the date clause |
| ArxivService.JoinOr | src/services/arxiv/arxivClient.py:101 | joining with " OR " is joining the OR-interleaved terms with spaces |
| ArxivService.CategoriesReadBack | src/services/arxiv/arxivClient.py:98-102 | several categories give `(cat:A OR cat:B ...)`, whose inside splits back into the terms in list order |
| ArxivService.DateClauseBounds | src/services/arxiv/arxivClient.py:104-107 | a present bound appears with `2000` or `2359` appended, a missing one as `*` |
| ArxivService.CappedMaxResults | src/services/arxiv/arxivClient.py:92-112 | `min(max_results, 2000)`, an unset argument taking `settings.max_results or 100` |
| ArxivService.CleanIdAsWritten | src/services/arxiv/arxivClient.py:188 | the cleaning as written keeps the prefix before the first `v`: no `v` in it, and the next character of the id is that `v`; an id without `v` is kept whole |
| ArxivService.CleanIdAsWrittenCutsArchive | src/services/arxiv/arxivClient.py:188 | as written, `solv-int/9901001v1` is cut to `sol` |
| ArxivService.CleanId | src/services/arxiv/arxivClient.py:188 | the corrected cleaning returns a prefix, and returns an id without a version suffix unchanged |
| ArxivService.CleanIdDropsVersion | src/services/arxiv/arxivClient.py:188 | removing `v<digits>` gives back the base id, whatever letters it holds |
| ArxivService.CleanIdKeepsOldStyle | src/services/arxiv/arxivClient.py:188 | an old-style id with a `v` in its archive name is left alone |
| ArxivService.ArxivIdOf | src/services/arxiv/arxivClient.py:260-264 | `None` exactly without an id element or text; otherwise the text after its last `/`, or the whole text when it has none |
| ArxivService.PdfFileNameShape | src/services/arxiv/arxivClient.py:296-298 | the file name is the id with every `/` replaced by `_`, plus `.pdf`, so it never names a subdirectory |
| ArxivService.GetText | src/services/arxiv/arxivClient.py:253-256 | a missing element or text gives "" |
| ArxivService.GetTextShape | src/services/arxiv/arxivClient.py:257-258 | the stripped text character for character, a line break becoming a space only when cleaning; no whitespace at either end, and no line break when cleaned |
| ArxivService.NonEmptyConcat | src/services/arxiv/arxivClient.py:266-280 | filtering out empty values works piece by piece, so order is kept |
| ArxivService.GetAuthors | src/services/arxiv/arxivClient.py:266-272 | the loop gives the non-empty author names in document order |
| ArxivService.GetCategories | src/services/arxiv/arxivClient.py:274-280 | the loop gives the non-empty `term` attributes in document order |
| ArxivService.FirstPdfLink | src/services/arxiv/arxivClient.py:283-284 | the first link typed `application/pdf` |
| ArxivService.GetPdfUrl | src/services/arxiv/arxivClient.py:282-293 | the loop gives the URL the specification picks |
| ArxivService.SecuredShape | src/services/arxiv/arxivClient.py:286-287 | an `http://arxiv.org/` URL gets the https scheme, and any other URL is kept |
| ArxivService.PdfUrlChoice | src/services/arxiv/arxivClient.py:282-293 | the first PDF link decides the URL and plain-HTTP arXiv becomes HTTPS; without one, the URL is built from a non-empty id, and is "" otherwise |
| ArxivService.ParseSingleEntry | src/services/arxiv/arxivClient.py:229-251 | one entry becomes a paper, or `None` when it has no id or the schema refuses it |
| ArxivService.EntryPaperShape | src/services/arxiv/arxivClient.py:229-251 | an entry parses exactly when it has a non-empty id and the schema accepts it; the paper's id is the `atom:id` text after its last `/`, title and abstract are single trimmed lines, and authors and categories are non-empty values of the entry |
| ArxivService.ParseResponse | src/services/arxiv/arxivClient.py:215-227 | malformed XML raises `ArxivParseError`; otherwise the papers of the entries |
| ArxivService.PapersOfFeed | src/services/arxiv/arxivClient.py:215-224 | the papers are exactly those the entries parse to, in feed order, and one per entry when all parse |
| ArxivService.Exchange | src/services/arxiv/arxivClient.py:122-141 | the request is sent and its reply is read as the fetch's answer |
| ArxivService.AnswerErrors | src/services/arxiv/arxivClient.py:133-141 | a fetch succeeds exactly when a body arrives and parses; a timeout gives `ArxivAPITimeoutError`, anything else `ArxivAPIException` |
| ArxivService.FetchPapers | src/services/arxiv/arxivClient.py:83-141 | the request carries the category and date query and the capped page size |
| ArxivService.FetchPapersWithQuery | src/services/arxiv/arxivClient.py:143-185 | the request carries the caller's query and the capped page size |
| ArxivService.FetchPaperById | src/services/arxiv/arxivClient.py:187-212 | as written: the id cut before its first `v` with one result asked; the first paper, or `None` for an empty answer; errors propagate |
| ArxivService.FetchPaperByIdCorrected | src/services/arxiv/arxivClient.py:187-212 | as intended: only a trailing version suffix dropped, one result asked; the first paper, or `None` for an empty answer; errors propagate |
| ArxivService.FirstById | src/services/arxiv/arxivClient.py:189-212 | one result asked for a cleaned id; the first paper, or `None` for an empty answer; errors propagate |
| ArxivService.AttemptOnceSaves | src/services/arxiv/arxivClient.py:321-342 | an attempt saves exactly a response whose content type mentions `pdf` and whose data starts like a PDF; any other response is refused; a failed exchange is transient |
| ArxivService.DelayIsPower | src/services/arxiv/arxivClient.py:350 | the wait before attempt k+2 is `base * 2^k` |
| ArxivService.DownloadWithRetry | src/services/arxiv/arxivClient.py:315-380 | the method returns the retry run's value, leaves its file and sleeps its waits |
| ArxivService.RetryStep | src/services/arxiv/arxivClient.py:345-372 | one turn of the loop: a save returns True, a validation failure gives up, a transient failure retries or, on the last attempt, raises |
| ArxivService.WaitsDouble | src/services/arxiv/arxivClient.py:349-352 | from the second attempt on, each wait doubles the one before |
| ArxivService.RetryFrom | src/services/arxiv/arxivClient.py:344-373 | from n attempts made: every attempt but the last fails transiently, and the last decides the run |
| ArxivService.RetryAttempts | src/services/arxiv/arxivClient.py:344-373 | between 1 and `max_retries` attempts; none and `False` when `max_retries` is not positive |
| ArxivService.RetryWaits | src/services/arxiv/arxivClient.py:349-352 | one wait before each attempt after the first, `base * 2^j` before attempt j+2 |
| ArxivService.WaitsFromFirst | src/services/arxiv/arxivClient.py:349 | no wait comes before the first attempt |
| ArxivService.DownloadDefaults | src/services/arxiv/arxivClient.py:316-317 | an unset or zero retry count means 3 attempts, an unset or zero delay a base of 2 seconds |
| ArxivService.FirstDecisiveAttempt | src/services/arxiv/arxivClient.py:353-364 | the first non-transient attempt ends the loop, and a validation failure gives up at once |
| ArxivService.AllAttemptsFail | src/services/arxiv/arxivClient.py:357-372 | when every attempt fails transiently, the last failure is raised |
| ArxivService.DownloadedIsPdf | src/services/arxiv/arxivClient.py:336-342 | a written file holds some response's data, and that data starts like a PDF |
| ArxivService.DownloadPdf | src/services/arxiv/arxivClient.py:300-313 | no URL gives `None`; a cached file is reused unless the download is forced; otherwise the validated download decides |
| ArxivFeed.PdfUrlAfterLast | ingestion/client/arxivClient.py:61-63 | the URL is kept unless some link overrides it, and then the last such link wins |
| ArxivFeed.Outcomes | ingestion/client/arxivClient.py:52-70 | one outcome per entry, in feed order |
| ArxivFeed.PickPdfUrl | ingestion/client/arxivClient.py:59-63 | the link loop computes the URL the last overriding link gives |
| ArxivFeed.EntryOutcome | ingestion/client/arxivClient.py:53-70 | the loop body gives the entry's record or the exception it raises |
| ArxivFeed.ParseMetadata | ingestion/client/arxivClient.py:42-72 | the entry loop gives the feed's records, or the first exception |
| ArxivFeed.CollectPerItem | ingestion/client/arxivClient.py:52-72 | a run succeeds exactly when every step does, giving the values in order; otherwise it gives the first failure |
| ArxivFeed.RecordsPerEntry | ingestion/client/arxivClient.py:52-70 | a feed parses exactly when every entry does, giving one record per entry in feed order; otherwise the first entry's exception |
| ArxivFeed.ArxivIdIsLastSegment | ingestion/client/arxivClient.py:53 | the id is a suffix of the `atom:id` text without `/`, directly after a `/` when there is one |
| ArxivFeed.RecordId | ingestion/client/arxivClient.py:53 | the id is the text after the last `/` |
| ArxivFeed.RecordFields | ingestion/client/arxivClient.py:53-70 | each field of a record comes from its own element |
| ArxivFeed.TitleIsStripped | ingestion/client/arxivClient.py:54 | the title is the stripped title text, with no whitespace at either end |
| ArxivFeed.PublishedYearOfEntry | ingestion/client/arxivClient.py:55-56 | an entry parses exactly when the first four characters of `published` are an integer, which becomes the year; otherwise `ValueError` |
| ArxivFeed.YearOfTimestamp | ingestion/client/arxivClient.py:55-56 | an RFC 3339 timestamp of a four-digit year yields that year |
| ArxivFeed.PdfUrlOfEntry | ingestion/client/arxivClient.py:58-63 | without an overriding link the URL is `https://arxiv.org/pdf/<id>.pdf`; otherwise it is the `href` of the last `pdf`-titled link that has one |
| ArxivFeed.NonOverridingLinksIgnored | ingestion/client/arxivClient.py:61-63 | a `pdf` link without `href`, or a link with another title, leaves the URL as it was |
| IngestDag.CleanTextForDb | airflow/dags/ingestArxiv.py:127-138 | falsy input comes back unchanged; any other text loses its NUL characters |
| IngestDag.CleanRemovesOnlyNul | airflow/dags/ingestArxiv.py:133 | the cleaned text has no NUL, and every other character as often as before |
| IngestDag.CleanKeepsOrder | airflow/dags/ingestArxiv.py:133 | cleaning distributes over concatenation, so order is kept |
| IngestDag.CleanIdempotent | airflow/dags/ingestArxiv.py:127-138 | cleaning twice is cleaning once |
| IngestDag.CleanedChunks | airflow/dags/ingestArxiv.py:163 | one cleaned chunk per chunk, none holding a NUL |
| IngestDag.MetaOf | airflow/dags/ingestArxiv.py:61-69 | `KeyError` without `arxiv_id`; otherwise exactly six keys with their defaults, and `published_date` from the year |
| IngestDag.MetaIsIndexable | airflow/dags/ingestArxiv.py:61-78 | every meta the store task builds can be indexed, with `published_at` its publication date |
| IngestDag.PublishedYearRecoverable | airflow/dags/ingestArxiv.py:66-100 | the download task's `int(date.split('-')[0])` gives back the year the store task wrote |
| IngestDag.SelectedShape | airflow/dags/ingestArxiv.py:166-167 | the selected positions are exactly the non-blank ones, increasing |
| IngestDag.RowsOf | airflow/dags/ingestArxiv.py:166-168 | one row per selected position, in order |
| IngestDag.ChunkRows | airflow/dags/ingestArxiv.py:166-168 | the row loop computes those rows |
| IngestDag.RowsOfShape | airflow/dags/ingestArxiv.py:166-168 | the rows are exactly the non-blank cleaned chunks in order, each under its position in the full list |
| IngestDag.DocsOf | airflow/dags/ingestArxiv.py:174-184 | one document per selected position within the shorter of chunks and embeddings |
| IngestDag.ChunkDocs | airflow/dags/ingestArxiv.py:173-184 | the document loop computes those documents |
| IngestDag.DocsOfShape | airflow/dags/ingestArxiv.py:174-184 | each document pairs a non-blank chunk with the embedding at its position; indices increase; every non-blank chunk that has an embedding is sent |

## Left out

- Network, clocks and concurrency:
  - The HTTP exchanges with OpenSearch, the embedding service, arXiv and the LLM are oracles passed as parameters. Their timeouts, headers and connection handling are not modelled.
  - `_throttle`, the rate limiting with wall-clock time, is not modelled. The `asyncio.sleep` and `time.sleep` calls are replaced by the list of computed waits.
  - The download semaphore and concurrent downloads are not modelled.
- The `fetch_metadata` tenacity retry decorator in ingestion/client/arxivClient.py is not modelled; the fetch there is an oracle.
- `urlencode` with its `safe` characters is not modelled: requests are structured values carrying the query string and parameters.
- The engine behind `/search`, `search_engine.search`, is an input: its answer or its exception.
- Floating point:
  - Scores are exact reals.
  - The `round(..., 4)` of scores and the `round(took * 1000, 2)` are not modelled.
  - The `took` value is carried through unrounded.
- XML parsing is abstracted:
  - Atom entries are records holding the elements `find`/`findall` return.
  - A malformed document is `None`, which `_parse_response` turns into `ArxivParseError`.
  - In `fetch_papers`, the generic `except Exception` rewraps that error as `ArxivAPIException`; the model does the same.
- PDF extraction: GROBID and pdfplumber are oracles that raise, answer `None`, or answer a text.
- The regex section split of `section_aware_chunking` is not modelled: sections arrive as a list of strings.
- The `ArxivPaper` schema's validation is an oracle predicate.
- Python built-ins:
  - `str.lower` is modelled for ASCII letters only.
  - `int()` is modelled without underscores between digits.
  - `str()` of a list is modelled without escaping quotes inside strings.
- The dead first assignment of `search_query` (src/services/arxiv/arxivClient.py:96) is overwritten at once and not modelled.
- The cache directory join and its `mkdir`: only the file name is modelled.
- A failure of `unlink` during cleanup is swallowed in the source. The model always removes the file.
- Database:
  - Sessions, transactions and commits of the SQL session are not modelled.
  - The table is a map from arXiv id to row.
- Airflow wiring:
  - XCom pushes and pulls, the task graph, `task_init` and `task_test_search` are not modelled.
  - The `saved` list of `task_store_metadata` and the path mapping of `task_download_pdfs` are not modelled.
- `ensure_indices`, `test_vector_search` and the health endpoints only configure or probe external services and are not modelled.
- The routers that forward to the unified search, and the SSE streaming and LLM calls after `_prepare_chunks_and_sources`, are not modelled.
- QueryBuilder.AccumulateRanks and Retrieval.AccumulateDocs each model one of the two identical loops of their source function. The method calls them twice.
- SectionChunker.ChunkBody requires `target_words > overlap_words`, and PdfParser.ChunkText requires `chunk_size > overlap`: with a step that is not positive the source loops forever on non-empty text. On an empty text or body the source returns no chunks whatever the step, and the model still asks for a positive step there.
- Streaming.SourceUrl keeps the source's cut at the first `v`, so an old-style id whose archive holds a `v` loses the rest of its text (the same defect as in the finding below). Streaming.VersionsShareSource therefore assumes a base id without `v`.
- The chunk/embedding alignment is not asserted. IngestDag.DocsOfShape pairs each chunk with the embedding at the same position. That is what the code does, even where the embedding service has dropped blank texts.

## Findings

| source | as written | input that shows it | evidently intended | confidence | as-written member | corrected member |
|---|---|---|---|---|---|---|
| src/services/arxiv/arxivClient.py:188 | `arxiv_id.split("v")[0]` keeps the text before the first `v` anywhere in the id | `solv-int/9901001v1` becomes `sol` | drop only a trailing version suffix `v<digits>`, giving `solv-int/9901001` | not executed | ArxivService.CleanIdAsWrittenCutsArchive, ArxivService.FetchPaperById | ArxivService.CleanIdDropsVersion, ArxivService.FetchPaperByIdCorrected |
