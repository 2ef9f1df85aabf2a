/** The retrieval core: the document collection loaded from the two corpus files, ranking
    by one similarity score per document, and the two text builders that consume a ranking.
    Embedding is not modelled: a query's similarity to each document arrives as `scores`,
    and the embedding matrix is represented by its row count. */
module Rag {
  import opened Wrappers
  import opened Text

  // ---------------------------------------------------------------------------
  // Documents and the corpus files

  datatype Metadata = Metadata(title: Option<string>, source: Option<string>, chunkId: Option<int>)

  const NoMetadata: Metadata := Metadata(None, None, None)

  datatype Document = Document(pageContent: string, metadata: Metadata)

  /** A JSON object read from a corpus line; a key it lacks is None. */
  datatype Record = Record(pageContent: Option<string>, metadata: Option<Metadata>)

  datatype JsonValue = JObject(record: Record) | JOther

  /** One corpus line: `json.loads` either raises on it or decodes it to a value. */
  datatype JsonLine = Malformed | Decoded(value: JsonValue)

  /** The corpus directory: file name to lines; a name absent from the map is a missing file. */
  type Store = map<string, seq<JsonLine>>

  /** The files read, in this order. */
  const CorpusFiles: seq<string> := ["medlineplus.jsonl", "cdc.jsonl"]

  const SetupText: string :=
    "No medical corpus found. Run the ingestion scripts to populate ./store/*.jsonl."

  /** The single document that stands in for an empty corpus. */
  const SetupDocument: Document :=
    Document(SetupText, Metadata(Some("Setup Required"), Some("system"), Some(0)))

  /** The objects of a file's lines, in line order; undecodable lines and decoded values
      that are not objects are skipped. */
  function DecodedObjects(lines: seq<JsonLine>): seq<Record> {
    if lines == [] then []
    else
      var last := lines[|lines| - 1];
      DecodedObjects(lines[..|lines| - 1]) + (if last.Decoded? && last.value.JObject? then [last.value.record] else [])
  }

  /** Skipping a line never disturbs the others: the objects of two stretches of lines are
      those of each stretch, in order. */
  lemma {:induction false} DecodedObjectsAppend(a: seq<JsonLine>, b: seq<JsonLine>)
    ensures DecodedObjects(a + b) == DecodedObjects(a) + DecodedObjects(b)
  {
    if b != [] {
      assert (a + b)[..|a + b| - 1] == a + b[..|b| - 1];
      DecodedObjectsAppend(a, b[..|b| - 1]);
    } else {
      assert a + b == a;
    }
  }

  /** A line that does not parse contributes nothing and the lines around it keep their order. */
  lemma MalformedLineSkipped(a: seq<JsonLine>, b: seq<JsonLine>)
    ensures DecodedObjects(a + [Malformed] + b) == DecodedObjects(a) + DecodedObjects(b)
  {
    DecodedObjectsAppend(a + [Malformed], b);
    DecodedObjectsAppend(a, [Malformed]);
    assert [Malformed][..0] == [];
  }

  function FileItems(store: Store, path: string): seq<Record> {
    if path in store then DecodedObjects(store[path]) else []
  }

  function FilesItems(store: Store, paths: seq<string>): seq<Record> {
    if paths == [] then []
    else FilesItems(store, paths[..|paths| - 1]) + FileItems(store, paths[|paths| - 1])
  }

  /** The records of the whole corpus: those of `medlineplus.jsonl`, then those of `cdc.jsonl`. */
  function CorpusItems(store: Store): (r: seq<Record>)
    ensures r == FileItems(store, "medlineplus.jsonl") + FileItems(store, "cdc.jsonl")
  {
    assert CorpusFiles[..1][..0] == [] && CorpusFiles[..1] == ["medlineplus.jsonl"];
    assert FilesItems(store, CorpusFiles[..1]) == FileItems(store, "medlineplus.jsonl");
    assert FilesItems(store, CorpusFiles)
      == FilesItems(store, CorpusFiles[..1]) + FileItems(store, "cdc.jsonl");
    FilesItems(store, CorpusFiles)
  }

  /** `Document(page_content=d.get("page_content", ""), metadata=d.get("metadata", {}))` */
  function ToDocument(r: Record): Document {
    Document(r.pageContent.GetOr(""), r.metadata.GetOr(NoMetadata))
  }

  function ToDocuments(items: seq<Record>): seq<Document> {
    seq(|items|, i requires 0 <= i < |items| => ToDocument(items[i]))
  }

  function TextsOf(items: seq<Record>): seq<string> {
    seq(|items|, i requires 0 <= i < |items| => items[i].pageContent.GetOr(""))
  }

  lemma RecordsSnoc(items: seq<Record>, i: nat)
    requires i < |items|
    ensures ToDocuments(items[..i + 1]) == ToDocuments(items[..i]) + [ToDocument(items[i])]
    ensures TextsOf(items[..i + 1]) == TextsOf(items[..i]) + [items[i].pageContent.GetOr("")]
  {
  }

  /** The collection a fresh `Retriever` holds for a corpus directory. */
  function Collection(store: Store): (r: seq<Document>)
    ensures r != []
    ensures CorpusItems(store) == [] ==> r == [SetupDocument]
    ensures CorpusItems(store) != [] ==>
      |r| == |CorpusItems(store)|
      && forall i :: 0 <= i < |r| ==>
           r[i].pageContent == CorpusItems(store)[i].pageContent.GetOr("")
           && r[i].metadata == CorpusItems(store)[i].metadata.GetOr(NoMetadata)
  {
    var items := CorpusItems(store);
    if items == [] then [SetupDocument] else ToDocuments(items)
  }

  // ---------------------------------------------------------------------------
  // Loading as the source writes it: `_load` calls `d.get` on every decoded value, so a
  // line holding valid JSON that is not an object (`null`, `[]`, `3`) raises
  // AttributeError and the whole construction fails.

  function DecodedValues(lines: seq<JsonLine>): seq<JsonValue> {
    if lines == [] then []
    else
      var last := lines[|lines| - 1];
      DecodedValues(lines[..|lines| - 1]) + (if last.Decoded? then [last.value] else [])
  }

  function FileValues(store: Store, path: string): seq<JsonValue> {
    if path in store then DecodedValues(store[path]) else []
  }

  function ValuesToDocuments(values: seq<JsonValue>): (r: Result<seq<Document>, string>)
    ensures r.Success? ==> |r.value| == |values|
  {
    if values == [] then Success([])
    else
      match ValuesToDocuments(values[..|values| - 1])
      case Failure(e) => Failure(e)
      case Success(ds) =>
        var v := values[|values| - 1];
        if v.JOther? then Failure("AttributeError") else Success(ds + [ToDocument(v.record)])
  }

  /** `_load_jsonl` followed by `_load`, as written. */
  function LoadAsWritten(store: Store): (r: Result<seq<Document>, string>)
    ensures r.Success? ==> r.value != []
  {
    var values := FileValues(store, "medlineplus.jsonl") + FileValues(store, "cdc.jsonl");
    if values == [] then Success([SetupDocument]) else ValuesToDocuments(values)
  }

  /** A line holding JSON that is not an object contributes nothing to the corrected loader,
      and the lines around it keep their order. */
  lemma NonObjectLineSkipped(a: seq<JsonLine>, b: seq<JsonLine>)
    ensures DecodedObjects(a + [Decoded(JOther)] + b) == DecodedObjects(a) + DecodedObjects(b)
  {
    DecodedObjectsAppend(a + [Decoded(JOther)], b);
    DecodedObjectsAppend(a, [Decoded(JOther)]);
    assert [Decoded(JOther)][..0] == [];
  }

  /** As written, converting the decoded values fails exactly when one of them is not an object. */
  lemma {:induction false} ValuesToDocumentsFails(values: seq<JsonValue>)
    ensures ValuesToDocuments(values).Failure? <==> JOther in values
  {
    if values != [] {
      var init := values[..|values| - 1];
      ValuesToDocumentsFails(init);
      assert values == init + [values[|values| - 1]];
      assert JOther in values <==> JOther in init || values[|values| - 1] == JOther;
    }
  }

  /** A line is decoded to a non-object exactly when that value is among the file's values. */
  lemma {:induction false} DecodedValuesHaveOther(lines: seq<JsonLine>)
    ensures JOther in DecodedValues(lines) <==> Decoded(JOther) in lines
  {
    if lines != [] {
      var init := lines[..|lines| - 1];
      DecodedValuesHaveOther(init);
      assert lines == init + [lines[|lines| - 1]];
    }
  }

  /** As written, one line anywhere in either corpus file that decodes to a non-object makes
      the whole load fail, and only such a line does. */
  lemma NonObjectLineFailsLoad(store: Store)
    ensures LoadAsWritten(store).Failure? <==>
      exists path :: path in CorpusFiles && path in store && Decoded(JOther) in store[path]
  {
    var m := FileValues(store, "medlineplus.jsonl");
    var c := FileValues(store, "cdc.jsonl");
    if "medlineplus.jsonl" in store {
      DecodedValuesHaveOther(store["medlineplus.jsonl"]);
    }
    if "cdc.jsonl" in store {
      DecodedValuesHaveOther(store["cdc.jsonl"]);
    }
    ValuesToDocumentsFails(m + c);
    assert JOther in m + c <==> JOther in m || JOther in c;
    assert CorpusFiles[0] == "medlineplus.jsonl" && CorpusFiles[1] == "cdc.jsonl";
  }

  /** One valid record and one `null` line: as written the load fails, where the corrected
      loader keeps the valid record. */
  lemma NonObjectLineAbortsLoad(r: Record)
    ensures LoadAsWritten(map["medlineplus.jsonl" := [Decoded(JObject(r)), Decoded(JOther)]]).Failure?
    ensures Collection(map["medlineplus.jsonl" := [Decoded(JObject(r)), Decoded(JOther)]]) == [ToDocument(r)]
  {
    var lines := [Decoded(JObject(r)), Decoded(JOther)];
    assert lines[..1][..0] == [] && lines[..1] == [Decoded(JObject(r))];
    var store := map["medlineplus.jsonl" := lines];
    assert DecodedValues(lines[..1]) == [JObject(r)];
    assert DecodedValues(lines) == [JObject(r), JOther];
    assert FileValues(store, "medlineplus.jsonl") == [JObject(r), JOther];
    assert FileValues(store, "cdc.jsonl") == [];
    assert [JObject(r), JOther] + [] == [JObject(r), JOther];
    assert [JObject(r), JOther][..1] == [JObject(r)] && [JObject(r)][..0] == [];
    assert DecodedObjects(lines[..1]) == [r];
    assert DecodedObjects(lines) == [r];
    assert FileItems(store, "medlineplus.jsonl") == [r];
    assert FileItems(store, "cdc.jsonl") == [];
    assert CorpusItems(store) == [r];
  }

  lemma {:induction false} ObjectsAgree(values: seq<JsonValue>, lines: seq<JsonLine>)
    requires values == DecodedValues(lines)
    requires forall v :: v in values ==> v.JObject?
    ensures ValuesToDocuments(values) == Success(ToDocuments(DecodedObjects(lines)))
    decreases lines
  {
    if lines != [] {
      var init := lines[..|lines| - 1];
      var last := lines[|lines| - 1];
      var vs := DecodedValues(init);
      assert values == vs + (if last.Decoded? then [last.value] else []);
      assert forall v :: v in vs ==> v in values;
      ObjectsAgree(vs, init);
      if !last.Decoded? {
        assert values == vs;
        assert DecodedObjects(lines) == DecodedObjects(init) + [];
        assert DecodedObjects(init) + [] == DecodedObjects(init);
      } else {
        assert values[..|values| - 1] == vs;
        assert last.value in values;
        var objs := DecodedObjects(init);
        assert DecodedObjects(lines) == objs + [last.value.record];
        assert ToDocuments(objs + [last.value.record]) == ToDocuments(objs) + [ToDocument(last.value.record)];
      }
    } else {
      assert ToDocuments([]) == [];
    }
  }

  /** Where the as-written load does not fail, it builds the same collection as the corrected one. */
  lemma LoadAsWrittenAgrees(store: Store)
    requires forall path :: path in store ==> forall v :: v in DecodedValues(store[path]) ==> v.JObject?
    ensures LoadAsWritten(store) == Success(Collection(store))
  {
    var a := FileValues(store, "medlineplus.jsonl");
    var b := FileValues(store, "cdc.jsonl");
    var la := if "medlineplus.jsonl" in store then store["medlineplus.jsonl"] else [];
    var lb := if "cdc.jsonl" in store then store["cdc.jsonl"] else [];
    DecodedValuesAppend(la, lb);
    DecodedObjectsAppend(la, lb);
    assert a + b == DecodedValues(la + lb);
    assert FileItems(store, "medlineplus.jsonl") + FileItems(store, "cdc.jsonl") == DecodedObjects(la + lb);
    ObjectsAgree(a + b, la + lb);
    if a + b == [] {
      DecodedObjectsNoMore(la + lb);
    } else {
      DecodedObjectsNonEmpty(la + lb);
    }
  }

  lemma {:induction false} DecodedValuesAppend(a: seq<JsonLine>, b: seq<JsonLine>)
    ensures DecodedValues(a + b) == DecodedValues(a) + DecodedValues(b)
  {
    if b != [] {
      assert (a + b)[..|a + b| - 1] == a + b[..|b| - 1];
      DecodedValuesAppend(a, b[..|b| - 1]);
    } else {
      assert a + b == a;
    }
  }

  lemma {:induction false} DecodedObjectsNoMore(lines: seq<JsonLine>)
    requires DecodedValues(lines) == []
    ensures DecodedObjects(lines) == []
  {
    if lines != [] {
      DecodedObjectsNoMore(lines[..|lines| - 1]);
    }
  }

  lemma {:induction false} DecodedObjectsNonEmpty(lines: seq<JsonLine>)
    requires DecodedValues(lines) != []
    requires forall v :: v in DecodedValues(lines) ==> v.JObject?
    ensures DecodedObjects(lines) != []
  {
    var init := lines[..|lines| - 1];
    var last := lines[|lines| - 1];
    if !last.Decoded? {
      assert DecodedValues(lines) == DecodedValues(init);
      DecodedObjectsNonEmpty(init);
    } else {
      assert last.value in DecodedValues(lines);
    }
  }

  // ---------------------------------------------------------------------------
  // Ranking: np.argsort(-sims)[:k]

  predicate Distinct(sel: seq<nat>) {
    forall p, q :: 0 <= p < q < |sel| ==> sel[p] != sel[q]
  }

  /** Every index names a document and the scores do not increase along `sel`. */
  predicate RankedBy(sel: seq<nat>, scores: seq<real>) {
    (forall p :: 0 <= p < |sel| ==> sel[p] < |scores|)
    && forall p, q :: 0 <= p < q < |sel| ==> scores[sel[p]] >= scores[sel[q]]
  }

  /** Inserts index `i` into a ranking after every index that scores at least as high. */
  function InsertByScore(ranked: seq<nat>, i: nat, scores: seq<real>): seq<nat>
    requires i < |scores| && forall p :: 0 <= p < |ranked| ==> ranked[p] < |scores|
  {
    if ranked == [] then [i]
    else if scores[ranked[0]] >= scores[i] then [ranked[0]] + InsertByScore(ranked[1..], i, scores)
    else [i] + ranked
  }

  /** Insertion adds exactly `i`. */
  lemma {:induction false} InsertByScoreMembers(ranked: seq<nat>, i: nat, scores: seq<real>)
    requires i < |scores| && forall p :: 0 <= p < |ranked| ==> ranked[p] < |scores|
    ensures |InsertByScore(ranked, i, scores)| == |ranked| + 1
    ensures forall x :: x in InsertByScore(ranked, i, scores) <==> x in ranked || x == i
  {
    if ranked != [] && scores[ranked[0]] >= scores[i] {
      InsertByScoreMembers(ranked[1..], i, scores);
      assert forall x :: x in ranked <==> x == ranked[0] || x in ranked[1..];
    }
  }

  /** Insertion keeps the ranking ordered. */
  lemma {:induction false} InsertByScoreOrdered(ranked: seq<nat>, i: nat, scores: seq<real>)
    requires i < |scores| && RankedBy(ranked, scores)
    ensures RankedBy(InsertByScore(ranked, i, scores), scores)
  {
    var r := InsertByScore(ranked, i, scores);
    InsertByScoreMembers(ranked, i, scores);
    if ranked != [] {
      if scores[ranked[0]] >= scores[i] {
        var tail := ranked[1..];
        var rest := InsertByScore(tail, i, scores);
        InsertByScoreOrdered(tail, i, scores);
        InsertByScoreMembers(tail, i, scores);
        assert r == [ranked[0]] + rest;
        forall q | 0 <= q < |rest|
          ensures scores[ranked[0]] >= scores[rest[q]]
        {
          if rest[q] != i {
            assert rest[q] in rest;
            var t :| 0 <= t < |tail| && tail[t] == rest[q];
            assert ranked[t + 1] == rest[q];
          }
        }
        forall p, q | 0 <= p < q < |r|
          ensures scores[r[p]] >= scores[r[q]]
        {
          if p > 0 {
            assert r[p] == rest[p - 1] && r[q] == rest[q - 1];
          }
        }
      } else {
        assert r == [i] + ranked;
        forall p, q | 0 <= p < q < |r|
          ensures scores[r[p]] >= scores[r[q]]
        {
          if p == 0 {
            assert r[q] == ranked[q - 1];
            assert scores[ranked[0]] >= scores[ranked[q - 1]] || q == 1;
          } else {
            assert r[p] == ranked[p - 1] && r[q] == ranked[q - 1];
          }
        }
      }
    }
  }

  /** Inserting a new index keeps the ranking free of duplicates. */
  lemma {:induction false} InsertByScoreDistinct(ranked: seq<nat>, i: nat, scores: seq<real>)
    requires i < |scores| && forall p :: 0 <= p < |ranked| ==> ranked[p] < |scores|
    requires Distinct(ranked) && i !in ranked
    ensures Distinct(InsertByScore(ranked, i, scores))
  {
    var r := InsertByScore(ranked, i, scores);
    if ranked != [] {
      if scores[ranked[0]] >= scores[i] {
        var tail := ranked[1..];
        var rest := InsertByScore(tail, i, scores);
        InsertByScoreDistinct(tail, i, scores);
        InsertByScoreMembers(tail, i, scores);
        assert r == [ranked[0]] + rest;
        assert ranked[0] !in tail;
        forall p, q | 0 <= p < q < |r|
          ensures r[p] != r[q]
        {
          if p == 0 {
            assert r[q] in rest;
          } else {
            assert r[p] == rest[p - 1] && r[q] == rest[q - 1];
          }
        }
      } else {
        assert r == [i] + ranked;
        forall p, q | 0 <= p < q < |r|
          ensures r[p] != r[q]
        {
          if p == 0 {
            assert r[q] == ranked[q - 1];
          } else {
            assert r[p] == ranked[p - 1] && r[q] == ranked[q - 1];
          }
        }
      }
    }
  }

  /** The ranking of documents 0 .. n-1: each exactly once, best score first. */
  function Rank(scores: seq<real>, n: nat): (r: seq<nat>)
    requires n <= |scores|
    ensures |r| == n && Distinct(r) && RankedBy(r, scores)
    ensures forall x: int :: x in r <==> 0 <= x < n
  {
    if n == 0 then []
    else
      var prev := Rank(scores, n - 1);
      InsertByScoreMembers(prev, n - 1, scores);
      InsertByScoreOrdered(prev, n - 1, scores);
      InsertByScoreDistinct(prev, n - 1, scores);
      InsertByScore(prev, n - 1, scores)
  }

  /** Python's `len(xs[:k])` for a list of length n, negative k included. */
  function SliceLen(n: nat, k: int): (r: nat)
    ensures r <= n
  {
    if k >= 0 then (if k < n then k else n)
    else if n + k > 0 then n + k else 0
  }

  /** `sel` is an admissible answer to "the top k of scores": the right length, distinct
      documents, best first, and no document left out scores above one taken. */
  ghost predicate IsTopK(sel: seq<nat>, scores: seq<real>, k: int) {
    |sel| == SliceLen(|scores|, k)
    && Distinct(sel)
    && RankedBy(sel, scores)
    && forall p, j :: 0 <= p < |sel| && 0 <= j < |scores| && j !in sel ==> scores[sel[p]] >= scores[j]
  }

  /** `np.argsort(-sims)[:k]` */
  function TopK(scores: seq<real>, k: int): (sel: seq<nat>)
    ensures IsTopK(sel, scores, k)
  {
    var ranked := Rank(scores, |scores|);
    var m := SliceLen(|scores|, k);
    TopKDominates(ranked, scores, m);
    ranked[..m]
  }

  lemma TopKDominates(ranked: seq<nat>, scores: seq<real>, m: nat)
    requires |ranked| == |scores| && Distinct(ranked) && RankedBy(ranked, scores)
    requires forall x: int :: x in ranked <==> 0 <= x < |scores|
    requires m <= |ranked|
    ensures forall p, j :: 0 <= p < m && 0 <= j < |scores| && j !in ranked[..m] ==> scores[ranked[..m][p]] >= scores[j]
  {
    forall p, j | 0 <= p < m && 0 <= j < |scores| && j !in ranked[..m]
      ensures scores[ranked[..m][p]] >= scores[j]
    {
      assert j in ranked;
      var q :| 0 <= q < |ranked| && ranked[q] == j;
      assert forall t :: 0 <= t < m ==> ranked[..m][t] == ranked[t];
    }
  }

  /** With k at least the collection size every document is returned, ranked. */
  lemma TopKAllWhenLarge(scores: seq<real>, k: int)
    requires k >= |scores|
    ensures |TopK(scores, k)| == |scores|
    ensures forall j :: 0 <= j < |scores| ==> j in TopK(scores, k)
  {
    var ranked := Rank(scores, |scores|);
    assert TopK(scores, k) == ranked[..|scores|] == ranked;
  }

  /** A negative k drops the last |k| ranked documents: it keeps what k + N would. */
  lemma TopKNegative(scores: seq<real>, k: int)
    requires -|scores| <= k < 0
    ensures TopK(scores, k) == TopK(scores, |scores| + k)
  {
  }

  // ---------------------------------------------------------------------------
  // The retriever object

  /** Text i is the content of document i. */
  ghost predicate RowAligned(ds: seq<Document>, ts: seq<string>) {
    |ts| == |ds| && forall i :: 0 <= i < |ds| ==> ts[i] == ds[i].pageContent
  }

  lemma RowAlignedSnoc(ds: seq<Document>, ts: seq<string>, d: Document)
    requires RowAligned(ds, ts)
    ensures RowAligned(ds + [d], ts + [d.pageContent])
  {
  }

  class Retriever {
    var docs: seq<Document>
    var docTexts: seq<string>
    /** The number of rows of the embedding matrix; None before the first encoding. */
    var docEmbs: Option<nat>

    /** `docs` and `docTexts` are row-aligned. */
    ghost predicate Aligned()
      reads this
    {
      RowAligned(docs, docTexts)
    }

    ghost predicate Valid()
      reads this
    {
      Aligned() && docs != [] && docEmbs == Some(|docs|)
    }

    /** `Retriever()`: an empty state filled by `_load` from the corpus directory. */
    constructor (store: Store)
      ensures Valid() && docs == Collection(store)
    {
      docs := [];
      docTexts := [];
      docEmbs := None;
      new;
      Load(store);
    }

    /** `_load_jsonl(path)`: the objects of the file's lines in order, nothing for a missing file. */
    method LoadJsonl(store: Store, path: string) returns (items: seq<Record>)
      ensures items == FileItems(store, path)
    {
      items := [];
      if path !in store {
        return;
      }
      var lines := store[path];
      var i := 0;
      while i < |lines|
        invariant 0 <= i <= |lines|
        invariant items == DecodedObjects(lines[..i])
      {
        assert lines[..i + 1][..i] == lines[..i];
        var line := lines[i];
        if line.Decoded? && line.value.JObject? {
          items := items + [line.value.record];
        }
        i := i + 1;
      }
      assert lines[..|lines|] == lines;
    }

    /** `_load()`: the sentinel document alone when the corpus is empty; otherwise every
        record appended, as a document and as its text, and the texts encoded. */
    method Load(store: Store)
      modifies this
      ensures CorpusItems(store) == [] ==> docs == [SetupDocument] && docTexts == [SetupText]
      ensures CorpusItems(store) != [] ==>
        docs == old(docs) + ToDocuments(CorpusItems(store))
        && docTexts == old(docTexts) + TextsOf(CorpusItems(store))
      ensures docEmbs == Some(|docTexts|)
      ensures old(Aligned()) ==> Aligned()
    {
      var items: seq<Record> := [];
      var p := 0;
      while p < |CorpusFiles|
        invariant 0 <= p <= |CorpusFiles|
        invariant items == FilesItems(store, CorpusFiles[..p])
        invariant unchanged(this)
      {
        assert CorpusFiles[..p + 1][..p] == CorpusFiles[..p];
        var fileItems := LoadJsonl(store, CorpusFiles[p]);
        items := items + fileItems;
        p := p + 1;
      }
      assert CorpusFiles[..2] == CorpusFiles;
      assert items == CorpusItems(store);
      if items == [] {
        docs := [SetupDocument];
        docTexts := [docs[0].pageContent];
        docEmbs := Some(|docTexts|);
        return;
      }
      ghost var aligned0 := Aligned();
      assert ToDocuments(items[..0]) == [] && TextsOf(items[..0]) == [];
      var i := 0;
      while i < |items|
        invariant 0 <= i <= |items|
        invariant docs == old(docs) + ToDocuments(items[..i])
        invariant docTexts == old(docTexts) + TextsOf(items[..i])
        invariant aligned0 ==> RowAligned(docs, docTexts)
      {
        RecordsSnoc(items, i);
        if aligned0 {
          RowAlignedSnoc(docs, docTexts, ToDocument(items[i]));
        }
        docs := docs + [ToDocument(items[i])];
        docTexts := docTexts + [items[i].pageContent.GetOr("")];
        i := i + 1;
      }
      assert items[..|items|] == items;
      docEmbs := Some(|docTexts|);
    }

    /** `reload()`: a fresh construction over the current files; nothing of the old state survives. */
    method Reload(store: Store)
      modifies this
      ensures Valid() && docs == Collection(store)
    {
      docs := [];
      docTexts := [];
      docEmbs := None;
      Load(store);
    }

    /** `retrieve(query, k)` given the query's similarity to each document: nothing before
        encoding or with no texts; otherwise the documents of an admissible top-k ranking. */
    function Retrieve(scores: seq<real>, k: int): (r: seq<Document>)
      reads this
      requires |scores| == |docs|
      ensures docEmbs.None? || docTexts == [] ==> r == []
      ensures docEmbs.Some? && docTexts != [] ==>
        |r| == SliceLen(|docs|, k)
        && exists sel :: IsTopK(sel, scores, k) && |sel| == |r| && forall p :: 0 <= p < |r| ==> r[p] == docs[sel[p]]
    {
      if docEmbs.None? || docTexts == [] then []
      else
        var sel := TopK(scores, k);
        var ds := docs;
        seq(|sel|, p requires 0 <= p < |sel| => ds[sel[p]])
    }
  }

  /** A retriever over a single document returns that document for every k >= 1. */
  lemma SingleDocumentRetrieved(r: Retriever, scores: seq<real>, k: int)
    requires r.Valid() && |r.docs| == 1
    requires |scores| == 1 && k >= 1
    ensures r.Retrieve(scores, k) == r.docs
  {
    var s := r.Retrieve(scores, k);
    assert |s| == 1;
  }

  /** With an empty corpus every retrieval of at least one document returns the sentinel. */
  lemma EmptyCorpusRetrievesSetup(r: Retriever, store: Store, scores: seq<real>, k: int)
    requires r.Valid() && r.docs == Collection(store) && CorpusItems(store) == []
    requires |scores| == 1 && k >= 1
    ensures r.Retrieve(scores, k) == [SetupDocument]
  {
    SingleDocumentRetrieved(r, scores, k);
  }

  // ---------------------------------------------------------------------------
  // Context and answer text

  /** `f"[{title}]({src}) :: {d.page_content}"` with the defaults "Source" and "". */
  function ContextPart(d: Document): (r: string)
    ensures var title := d.metadata.title.GetOr("Source");
      |r| == |title| + |d.metadata.source.GetOr("")| + 8 + |d.pageContent| && r[0] == '['
      && OccursAt(title, r, 1)
      && OccursAt("](" + d.metadata.source.GetOr("") + ") :: ", r, 1 + |title|)
    ensures r[|r| - |d.pageContent|..] == d.pageContent
  {
    var title := d.metadata.title.GetOr("Source");
    var src := d.metadata.source.GetOr("");
    var r := "[" + title + ("](" + src + ") :: ") + d.pageContent;
    assert OccursAt(title, r, 1);
    assert OccursAt("](" + src + ") :: ", r, 1 + |title|);
    r
  }

  function ContextParts(docs: seq<Document>): seq<string> {
    seq(|docs|, i requires 0 <= i < |docs| => ContextPart(docs[i]))
  }

  const ContextSeparator: string := "\n\n---\n\n"

  /** `format_context(docs)`: one part per document, in order, separated by the delimiter. */
  function FormatContext(docs: seq<Document>): (r: string)
    ensures docs == [] ==> r == ""
    ensures |docs| == 1 ==> r == ContextPart(docs[0])
  {
    Join(ContextParts(docs), ContextSeparator)
  }

  /** Formatting two runs of documents is formatting each, separated by the delimiter. */
  lemma FormatContextConcat(a: seq<Document>, b: seq<Document>)
    requires a != [] && b != []
    ensures FormatContext(a + b) == FormatContext(a) + ContextSeparator + FormatContext(b)
  {
    assert ContextParts(a + b) == ContextParts(a) + ContextParts(b);
    JoinConcat(ContextParts(a), ContextParts(b), ContextSeparator);
  }

  /** Every document's title, source and text appear in the context. */
  lemma FormatContextMentions(docs: seq<Document>, i: nat)
    requires i < |docs|
    ensures IsSubstring(docs[i].metadata.title.GetOr("Source"), FormatContext(docs))
    ensures IsSubstring(docs[i].metadata.source.GetOr(""), FormatContext(docs))
    ensures IsSubstring(docs[i].pageContent, FormatContext(docs))
  {
    var d := docs[i];
    var part := ContextPart(d);
    var title := d.metadata.title.GetOr("Source");
    var src := d.metadata.source.GetOr("");
    JoinContainsPart(ContextParts(docs), ContextSeparator, i);
    assert OccursAt(title, part, 1);
    assert OccursAt(src, part, |title| + 3);
    assert OccursAt(d.pageContent, part, |part| - |d.pageContent|);
    SubstringTransitive(title, part, FormatContext(docs));
    SubstringTransitive(src, part, FormatContext(docs));
    SubstringTransitive(d.pageContent, part, FormatContext(docs));
  }

  /** The fixed body of the answer (`textwrap.dedent` leaves it as it is: none of its lines is indented). */
  const AnswerBody: string :=
    "Here\U{2019}s what reputable sources say in general terms:\n"
    + "- Summarize key symptoms/causes and when to seek care.\n"
    + "- Provide simple, actionable self-care tips where appropriate.\n"
    + "- Avoid diagnosis; encourage professional guidance if symptoms persist or worsen.\n"

  /** A document cited as `[title](source)`, or by its title alone when it has no source. */
  function Citation(d: Document): (r: string)
    ensures d.metadata.source.GetOr("") == "" ==> r == d.metadata.title.GetOr("Source")
    ensures IsSubstring(d.metadata.title.GetOr("Source"), r)
    ensures IsSubstring(d.metadata.source.GetOr(""), r)
    ensures var title := d.metadata.title.GetOr("Source"); var src := d.metadata.source.GetOr("");
      src != "" ==>
        |r| == |title| + |src| + 4 && r[0] == '['
        && OccursAt(title, r, 1) && OccursAt("](" + src + ")", r, 1 + |title|)
  {
    var title := d.metadata.title.GetOr("Source");
    var src := d.metadata.source.GetOr("");
    if src != "" then
      var c := "[" + title + ("](" + src + ")");
      assert OccursAt(title, c, 1);
      assert OccursAt("](" + src + ")", c, 1 + |title|);
      assert OccursAt(src, c, |title| + 3);
      c
    else
      assert OccursAt(title, title, 0);
      assert OccursAt(src, title, 0);
      title
  }

  /** The citations of `docs[:2]`. */
  function Citations(docs: seq<Document>): (r: seq<string>)
    ensures |r| == if |docs| < 2 then |docs| else 2
    ensures forall i :: 0 <= i < |r| ==> r[i] == Citation(docs[i])
  {
    var n := if |docs| < 2 then |docs| else 2;
    seq(n, i requires 0 <= i < n => Citation(docs[i]))
  }

  /** The citations joined by ", ": one citation alone, or the first two with the separator. */
  lemma CitationsJoined(docs: seq<Document>)
    ensures |docs| == 1 ==> Join(Citations(docs), ", ") == Citation(docs[0])
    ensures |docs| >= 2 ==> Join(Citations(docs), ", ") == Citation(docs[0]) + ", " + Citation(docs[1])
  {
    var cites := Citations(docs);
    if |docs| >= 2 {
      assert cites[1..] == [Citation(docs[1])];
    }
  }

  /** `synthesize_answer(query, docs, system_prompt)`: the body, then "Sources: " and the
      first two documents' citations joined by ", ", or "N/A" when there are no documents. */
  function SynthesizeAnswer(query: string, docs: seq<Document>, systemPrompt: string): (r: string)
    ensures docs == [] ==> r == AnswerBody + "Sources: N/A"
    ensures |docs| == 1 ==> r == AnswerBody + "Sources: " + Citation(docs[0])
    ensures |docs| >= 2 ==> r == AnswerBody + "Sources: " + (Citation(docs[0]) + ", " + Citation(docs[1]))
  {
    var cites := Citations(docs);
    CitationsJoined(docs);
    AnswerBody + "Sources: " + (if cites != [] then Join(cites, ", ") else "N/A")
  }

  /** The answer depends on the first two documents only, never on the query or the prompt. */
  lemma AnswerUsesFirstTwoOnly(q1: string, q2: string, docs: seq<Document>, p1: string, p2: string)
    requires |docs| > 2
    ensures SynthesizeAnswer(q1, docs, p1) == SynthesizeAnswer(q2, docs[..2], p2)
  {
  }

  // ---------------------------------------------------------------------------
  // A worked case: one flu passage in the corpus

  const FluDocument: Document :=
    Document("Drink fluids and rest for flu symptoms.",
             Metadata(Some("Flu"), Some("https://medlineplus.gov/flu.html"), Some(0)))

  /** A corpus holding only the flu page, in the MedlinePlus file. */
  const FluStore: Store :=
    map["medlineplus.jsonl" := [Decoded(JObject(Record(Some(FluDocument.pageContent), Some(FluDocument.metadata))))]]

  lemma FluCorpusLoads()
    ensures Collection(FluStore) == [FluDocument]
  {
    var rec := Record(Some(FluDocument.pageContent), Some(FluDocument.metadata));
    var lines := [Decoded(JObject(rec))];
    assert lines[..0] == [];
    assert DecodedObjects(lines) == [rec];
    assert FileItems(FluStore, "medlineplus.jsonl") == [rec];
    assert FileItems(FluStore, "cdc.jsonl") == [];
    assert CorpusItems(FluStore) == [rec];
  }

  /** Retrieving one passage from the flu corpus returns the flu page, and the context
      built from it names the page's title and link. */
  lemma FluScenario(r: Retriever, score: real)
    requires r.Valid()
    requires r.docs == Collection(FluStore)
    ensures r.docs == [FluDocument]
    ensures r.Retrieve([score], 1) == [FluDocument]
    ensures IsSubstring("Flu", FormatContext(r.Retrieve([score], 1)))
    ensures IsSubstring("https://medlineplus.gov/flu.html", FormatContext(r.Retrieve([score], 1)))
  {
    FluCorpusLoads();
    SingleDocumentRetrieved(r, [score], 1);
    FormatContextMentions([FluDocument], 0);
  }
}
