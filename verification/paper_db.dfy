/**
  The `papers` table and `upsert_paper`: a paper's metadata is inserted under a
  fresh primary key the first time its arXiv id is seen, and refreshed in place
  afterwards. The table is a map from the unique `arxiv_id` column to its row.
*/
module PaperDb {
  import opened Wrappers
  import opened Text
  import opened Values

  /** A row of `papers`; `id` is the primary key, `pdfPath` is `None` when never given. */
  datatype Paper = Paper(
    id: nat, arxivId: Value, title: Value, authors: Value, paperAbstract: Value,
    pdfUrl: Value, publishedDate: Value, pdfPath: Option<String>)

  /** The rows by arXiv id, and the primary key the next insert receives. */
  datatype Table = Table(rows: map<Value, Paper>, nextId: nat)

  /**
    The table's integrity: each row sits under its own arXiv id, which is never
    NULL; primary keys are positive, below `nextId` and distinct.
  */
  predicate TableOk(t: Table) {
    && t.nextId >= 1
    && (forall k :: k in t.rows ==> t.rows[k].arxivId == k && k != Null && 1 <= t.rows[k].id < t.nextId)
    && (forall k1, k2 :: k1 in t.rows && k2 in t.rows && k1 != k2 ==> t.rows[k1].id != t.rows[k2].id)
  }

  /** Python truthiness of the `pdf_path` argument. */
  predicate PathGiven(pdfPath: Option<String>) {
    pdfPath.Some? && pdfPath.value != []
  }

  /** The row an insert creates; keys missing from `meta` become NULL. */
  function Inserted(id: nat, meta: Dict, pdfPath: Option<String>): Paper
    requires "arxiv_id" in meta
  {
    Paper(id, meta["arxiv_id"], Get(meta, "title", Null), Get(meta, "authors", Null), Get(meta, "abstract", Null),
          Get(meta, "pdf_url", Null), Get(meta, "published_date", Null), pdfPath)
  }

  /** The row an update leaves: four fields refreshed, the path only when one is given. */
  function Updated(p: Paper, meta: Dict, pdfPath: Option<String>): Paper {
    p.(title := Get(meta, "title", Null), authors := Get(meta, "authors", Null),
       paperAbstract := Get(meta, "abstract", Null), pdfUrl := Get(meta, "pdf_url", Null),
       pdfPath := if PathGiven(pdfPath) then pdfPath else p.pdfPath)
  }

  /**
    What `upsert_paper` does: a `KeyError` without an arXiv id; an update when
    the id has a row; otherwise an insert, which the NOT NULL constraint refuses
    for a `None` id.
  */
  function UpsertSpec(t: Table, meta: Dict, pdfPath: Option<String>): (Result<Paper, String>, Table) {
    if "arxiv_id" !in meta then (Failure("KeyError"), t)
    else
      var key := meta["arxiv_id"];
      if key in t.rows then
        var p := Updated(t.rows[key], meta, pdfPath);
        (Success(p), Table(t.rows[key := p], t.nextId))
      else if key == Null then (Failure("IntegrityError"), t)
      else
        var p := Inserted(t.nextId, meta, pdfPath);
        (Success(p), Table(t.rows[key := p], t.nextId + 1))
  }

  class PaperTable {
    var rows: map<Value, Paper>
    var nextId: nat

    ghost predicate Valid()
      reads this
    {
      TableOk(Table(rows, nextId))
    }

    /** An empty table; the first primary key is 1. */
    constructor ()
      ensures Valid() && rows == map[] && nextId == 1
    {
      rows := map[];
      nextId := 1;
    }

    /**
      `upsert_paper(session, meta, pdf_path)`: look the paper up by arXiv id,
      then overwrite its fields or add a new row; the row is returned.
    */
    method Upsert(meta: Dict, pdfPath: Option<String>) returns (r: Result<Paper, String>)
      requires Valid()
      modifies this
      ensures Valid()
      ensures (r, Table(rows, nextId)) == UpsertSpec(Table(old(rows), old(nextId)), meta, pdfPath)
    {
      UpsertKeepsTableOk(Table(rows, nextId), meta, pdfPath);
      if "arxiv_id" !in meta {
        return Failure("KeyError");
      }
      var key := meta["arxiv_id"];
      if key in rows {
        var p := rows[key];
        p := p.(title := Get(meta, "title", Null));
        p := p.(authors := Get(meta, "authors", Null));
        p := p.(paperAbstract := Get(meta, "abstract", Null));
        p := p.(pdfUrl := Get(meta, "pdf_url", Null));
        if pdfPath.Some? && pdfPath.value != [] {
          p := p.(pdfPath := pdfPath);
        }
        rows := rows[key := p];
        return Success(p);
      }
      if key == Null {
        return Failure("IntegrityError");
      }
      var p := Paper(nextId, key, Get(meta, "title", Null), Get(meta, "authors", Null), Get(meta, "abstract", Null),
                     Get(meta, "pdf_url", Null), Get(meta, "published_date", Null), pdfPath);
      rows := rows[key := p];
      nextId := nextId + 1;
      r := Success(p);
    }
  }

  // ---------------------------------------------------------------- what an upsert promises

  /** The table's integrity survives every upsert. */
  lemma UpsertKeepsTableOk(t: Table, meta: Dict, pdfPath: Option<String>)
    requires TableOk(t)
    ensures TableOk(UpsertSpec(t, meta, pdfPath).1)
  {
    if "arxiv_id" in meta && meta["arxiv_id"] !in t.rows && meta["arxiv_id"] != Null {
      var t' := UpsertSpec(t, meta, pdfPath).1;
      var key := meta["arxiv_id"];
      forall k1, k2 | k1 in t'.rows && k2 in t'.rows && k1 != k2
        ensures t'.rows[k1].id != t'.rows[k2].id
      {
        if k1 == key {
          assert t'.rows[k2].id < t.nextId;
        } else if k2 == key {
          assert t'.rows[k1].id < t.nextId;
        }
      }
    }
  }

  /**
    A successful upsert leaves exactly one row for the arXiv id, the row it
    returns, and adds a row exactly when the id was new; a failed one changes
    nothing.
  */
  lemma UpsertOneRow(t: Table, meta: Dict, pdfPath: Option<String>)
    ensures var (r, t') := UpsertSpec(t, meta, pdfPath);
            && (r.Success? <==> "arxiv_id" in meta && (meta["arxiv_id"] in t.rows || meta["arxiv_id"] != Null))
            && (r.Failure? ==> t' == t)
            && (r.Success? ==>
                  var key := meta["arxiv_id"];
                  && key in t'.rows && t'.rows[key] == r.value
                  && t'.rows.Keys == t.rows.Keys + {key}
                  && |t'.rows| == |t.rows| + (if key in t.rows then 0 else 1))
  {
    var (r, t') := UpsertSpec(t, meta, pdfPath);
    if r.Success? {
      var key := meta["arxiv_id"];
      assert t'.rows.Keys == t.rows.Keys + {key};
      if key !in t.rows {
        assert t'.rows.Keys == t.rows.Keys + {key};
        assert |t.rows.Keys + {key}| == |t.rows.Keys| + 1;
      } else {
        assert t.rows.Keys + {key} == t.rows.Keys;
      }
    }
  }

  /**
    A new paper's row copies title, authors, abstract, publication date, PDF URL
    and path from the arguments and takes the next primary key.
  */
  lemma UpsertInsertFields(t: Table, meta: Dict, pdfPath: Option<String>)
    requires "arxiv_id" in meta && meta["arxiv_id"] !in t.rows && meta["arxiv_id"] != Null
    ensures var (r, t') := UpsertSpec(t, meta, pdfPath);
            && r.Success? && r.value.id == t.nextId && t'.nextId == t.nextId + 1
            && r.value.arxivId == meta["arxiv_id"]
            && r.value.title == Get(meta, "title", Null) && r.value.authors == Get(meta, "authors", Null)
            && r.value.paperAbstract == Get(meta, "abstract", Null) && r.value.pdfUrl == Get(meta, "pdf_url", Null)
            && r.value.publishedDate == Get(meta, "published_date", Null) && r.value.pdfPath == pdfPath
  {
  }

  /**
    A known paper's row gets title, authors, abstract and PDF URL from `meta`
    (NULL when missing), keeps its primary key, arXiv id and publication date,
    and changes its path only for a non-empty `pdf_path`.
  */
  lemma UpsertUpdateFields(t: Table, meta: Dict, pdfPath: Option<String>)
    requires "arxiv_id" in meta && meta["arxiv_id"] in t.rows
    ensures var (r, t') := UpsertSpec(t, meta, pdfPath);
            var before := t.rows[meta["arxiv_id"]];
            && r.Success? && t'.nextId == t.nextId
            && r.value.id == before.id && r.value.arxivId == before.arxivId && r.value.publishedDate == before.publishedDate
            && r.value.title == Get(meta, "title", Null) && r.value.authors == Get(meta, "authors", Null)
            && r.value.paperAbstract == Get(meta, "abstract", Null) && r.value.pdfUrl == Get(meta, "pdf_url", Null)
            && (r.value.pdfPath != before.pdfPath ==> PathGiven(pdfPath) && r.value.pdfPath == pdfPath)
            && (PathGiven(pdfPath) ==> r.value.pdfPath == pdfPath)
  {
  }

  /** Rows of other papers are untouched. */
  lemma UpsertOthersUntouched(t: Table, meta: Dict, pdfPath: Option<String>, other: Value)
    requires "arxiv_id" !in meta || other != meta["arxiv_id"]
    ensures var t' := UpsertSpec(t, meta, pdfPath).1;
            (other in t'.rows <==> other in t.rows) && (other in t.rows ==> t'.rows[other] == t.rows[other])
  {
  }

  /** Upserting the same metadata twice is the same as upserting it once. */
  lemma UpsertIdempotent(t: Table, meta: Dict, pdfPath: Option<String>)
    ensures var once := UpsertSpec(t, meta, pdfPath);
            UpsertSpec(once.1, meta, pdfPath) == once
  {
    var once := UpsertSpec(t, meta, pdfPath);
    if once.0.Success? {
      var key := meta["arxiv_id"];
      var p := once.1.rows[key];
      assert Updated(p, meta, pdfPath) == p;
      assert once.1.rows[key := p] == once.1.rows;
    }
  }
}
