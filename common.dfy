/** Ingestion helpers: numbering the text splitter's chunks into corpus records, and the
    whitespace normalisation that ends `clean_html`. The HTML parser, the text splitter and
    md5 are not modelled; they arrive as function parameters. */
module Common {
  import opened Text

  /** One corpus record: `{"id", "page_content", "metadata": {"source", "title", "chunk_id"}}`. */
  datatype ChunkRecord = ChunkRecord(id: string, pageContent: string, source: string, title: string, chunkId: nat)

  const DefaultChunkSize: nat := 800
  const DefaultChunkOverlap: nat := 120

  /** The record for chunk number `i` of `source`; its id is the hex digest of `f"{source}-{i}"`. */
  function RecordFor(chunk: string, i: nat, source: string, title: string, digest: string -> string): ChunkRecord {
    ChunkRecord(digest(source + "-" + NatToString(i)), chunk, source, title, i)
  }

  /** The records of a list of chunks, as the append loop builds them. */
  function ChunkRecords(chunks: seq<string>, source: string, title: string, digest: string -> string): (r: seq<ChunkRecord>)
    ensures |r| == |chunks|
  {
    if chunks == [] then []
    else
      var n := |chunks| - 1;
      ChunkRecords(chunks[..n], source, title, digest) + [RecordFor(chunks[n], n, source, title, digest)]
  }

  /** One record per chunk, in chunk order: record i holds chunk i under number i, with the
      given source and title. */
  lemma {:induction false} ChunkRecordsNumbered(chunks: seq<string>, source: string, title: string, digest: string -> string)
    ensures |ChunkRecords(chunks, source, title, digest)| == |chunks|
    ensures forall i :: 0 <= i < |chunks| ==>
      ChunkRecords(chunks, source, title, digest)[i] == RecordFor(chunks[i], i, source, title, digest)
  {
    if chunks != [] {
      var n := |chunks| - 1;
      ChunkRecordsNumbered(chunks[..n], source, title, digest);
    }
  }

  /** Within one call no two records share the pair (source, chunk_id). */
  lemma ChunkKeysDistinct(chunks: seq<string>, source: string, title: string, digest: string -> string)
    ensures forall i, j :: 0 <= i < j < |ChunkRecords(chunks, source, title, digest)| ==>
      (ChunkRecords(chunks, source, title, digest)[i].source, ChunkRecords(chunks, source, title, digest)[i].chunkId)
      != (ChunkRecords(chunks, source, title, digest)[j].source, ChunkRecords(chunks, source, title, digest)[j].chunkId)
  {
    ChunkRecordsNumbered(chunks, source, title, digest);
  }

  /** `chunk_text(text, source, title, chunk_size, chunk_overlap)`: record i holds the
      splitter's chunk i, numbered i, under the given source and title. */
  method ChunkText(text: string, source: string, title: string, chunkSize: nat, chunkOverlap: nat,
                   split: (string, nat, nat) -> seq<string>, digest: string -> string)
    returns (docs: seq<ChunkRecord>)
    ensures docs == ChunkRecords(split(text, chunkSize, chunkOverlap), source, title, digest)
    ensures |docs| == |split(text, chunkSize, chunkOverlap)|
    ensures forall i :: 0 <= i < |docs| ==>
      docs[i].pageContent == split(text, chunkSize, chunkOverlap)[i]
      && docs[i].chunkId == i && docs[i].source == source && docs[i].title == title
  {
    var chunks := split(text, chunkSize, chunkOverlap);
    docs := [];
    var i := 0;
    while i < |chunks|
      invariant 0 <= i <= |chunks|
      invariant docs == ChunkRecords(chunks[..i], source, title, digest)
    {
      assert chunks[..i + 1][..i] == chunks[..i];
      var uid := digest(source + "-" + NatToString(i));
      docs := docs + [ChunkRecord(uid, chunks[i], source, title, i)];
      i := i + 1;
    }
    assert chunks[..|chunks|] == chunks;
    ChunkRecordsNumbered(chunks, source, title, digest);
  }

  // ---------------------------------------------------------------------------
  // The tail of clean_html: re.sub(r"\n{2,}", "\n", text).strip()

  /** `s` without its leading newlines. */
  function DropNewlines(s: string): (r: string)
    ensures |r| <= |s|
    ensures r == [] || r[0] != '\n'
  {
    if s != [] && s[0] == '\n' then DropNewlines(s[1..]) else s
  }

  /** `re.sub(r"\n{2,}", "\n", s)`: each run of two or more newlines becomes one newline. */
  function CollapseNewlines(s: string): (r: string)
    ensures |r| <= |s|
    ensures s != [] ==> r != [] && r[0] == s[0]
    decreases |s|
  {
    if s == [] then []
    else if |s| >= 2 && s[0] == '\n' && s[1] == '\n' then "\n" + CollapseNewlines(DropNewlines(s))
    else [s[0]] + CollapseNewlines(s[1..])
  }

  predicate NoDoubleNewline(s: string) {
    forall i :: 0 <= i < |s| - 1 ==> !(s[i] == '\n' && s[i + 1] == '\n')
  }

  /** After the substitution no two newlines are adjacent. */
  lemma {:induction false} CollapseLeavesNoDoubleNewline(s: string)
    ensures NoDoubleNewline(CollapseNewlines(s))
    decreases |s|
  {
    if s == [] {
    } else if |s| >= 2 && s[0] == '\n' && s[1] == '\n' {
      var t := DropNewlines(s);
      CollapseLeavesNoDoubleNewline(t);
      var r := CollapseNewlines(s);
      assert r == "\n" + CollapseNewlines(t);
      forall i | 0 <= i < |r| - 1
        ensures !(r[i] == '\n' && r[i + 1] == '\n')
      {
        if i > 0 {
          assert r[i] == CollapseNewlines(t)[i - 1] && r[i + 1] == CollapseNewlines(t)[i];
        }
      }
    } else {
      CollapseLeavesNoDoubleNewline(s[1..]);
      var r := CollapseNewlines(s);
      assert r == [s[0]] + CollapseNewlines(s[1..]);
      forall i | 0 <= i < |r| - 1
        ensures !(r[i] == '\n' && r[i + 1] == '\n')
      {
        if i > 0 {
          assert r[i] == CollapseNewlines(s[1..])[i - 1] && r[i + 1] == CollapseNewlines(s[1..])[i];
        }
      }
    }
  }

  /** Text without adjacent newlines is left as it is. */
  lemma {:induction false} CollapseKeepsClean(s: string)
    requires NoDoubleNewline(s)
    ensures CollapseNewlines(s) == s
    decreases |s|
  {
    if s != [] {
      assert !(|s| >= 2 && s[0] == '\n' && s[1] == '\n');
      assert NoDoubleNewline(s[1..]) by {
        forall i | 0 <= i < |s[1..]| - 1
          ensures !(s[1..][i] == '\n' && s[1..][i + 1] == '\n')
        {
          assert s[1..][i] == s[i + 1] && s[1..][i + 1] == s[i + 2];
        }
      }
      CollapseKeepsClean(s[1..]);
      assert s == [s[0]] + s[1..];
    }
  }

  /** Collapsing twice is collapsing once. */
  lemma CollapseIdempotent(s: string)
    ensures CollapseNewlines(CollapseNewlines(s)) == CollapseNewlines(s)
  {
    CollapseLeavesNoDoubleNewline(s);
    CollapseKeepsClean(CollapseNewlines(s));
  }

  /** Leading newlines stop at the first other character. */
  lemma {:induction false} DropNewlinesBeforeChar(a: string, c: char, b: string)
    requires c != '\n'
    ensures DropNewlines(a + [c] + b) == DropNewlines(a) + [c] + b
    decreases |a|
  {
    if a != [] && a[0] == '\n' {
      assert (a + [c] + b)[1..] == a[1..] + [c] + b;
      DropNewlinesBeforeChar(a[1..], c, b);
    } else if a == [] {
      assert a + [c] + b == [c] + b;
    }
  }

  /** Any character other than a newline ends a run and is kept: the substitution works on
      each side of it separately. */
  lemma {:induction false} CollapseAroundChar(a: string, c: char, b: string)
    requires c != '\n'
    ensures CollapseNewlines(a + [c] + b) == CollapseNewlines(a) + [c] + CollapseNewlines(b)
    decreases |a|
  {
    var s := a + [c] + b;
    if a == [] {
      assert s == [c] + b && s[1..] == b;
    } else if |a| >= 2 && a[0] == '\n' && a[1] == '\n' {
      DropNewlinesBeforeChar(a, c, b);
      var t := DropNewlines(a);
      assert t == DropNewlines(a[2..]);
      CollapseAroundChar(t, c, b);
    } else {
      assert s[1..] == a[1..] + [c] + b;
      CollapseAroundChar(a[1..], c, b);
    }
  }

  /** A run of newlines with nothing after it leaves no newline after it is dropped. */
  lemma {:induction false} DropNewlineRun(n: nat)
    ensures DropNewlines(seq(n, _ => '\n')) == []
  {
    if n > 0 {
      assert seq(n, _ => '\n')[1..] == seq(n - 1, _ => '\n');
      DropNewlineRun(n - 1);
    }
  }

  /** A run of one or more newlines becomes a single newline. */
  lemma NewlineRunCollapses(n: nat)
    requires n >= 1
    ensures CollapseNewlines(seq(n, _ => '\n')) == "\n"
  {
    var run := seq(n, _ => '\n');
    if n == 1 {
      assert run[1..] == [];
    } else {
      DropNewlineRun(n);
    }
  }

  lemma NoDoubleNewlineInPiece(a: string, b: string)
    requires IsSubstring(a, b) && NoDoubleNewline(b)
    ensures NoDoubleNewline(a)
  {
    var k :| 0 <= k <= |b| && OccursAt(a, b, k);
    forall i | 0 <= i < |a| - 1
      ensures !(a[i] == '\n' && a[i + 1] == '\n')
    {
      assert a[i] == b[k + i] && a[i + 1] == b[k + i + 1];
    }
  }

  /** `clean_html(html)` given what the parser extracts from the page (`getText`): no two
      adjacent newlines, and no whitespace at either end. */
  function CleanHtml(html: string, getText: string -> string): (r: string)
    ensures NoDoubleNewline(r)
    ensures r == [] || (!IsSpace(r[0]) && !IsSpace(r[|r| - 1]))
  {
    var collapsed := CollapseNewlines(getText(html));
    CollapseLeavesNoDoubleNewline(getText(html));
    NoDoubleNewlineInPiece(Strip(collapsed), collapsed);
    Strip(collapsed)
  }

  /** What `clean_html` returns is the collapsed text less whitespace at its two ends. */
  lemma CleanHtmlTrimsCollapsed(html: string, getText: string -> string)
    ensures exists a :: PaddedAt(CleanHtml(html, getText), CollapseNewlines(getText(html)), a)
  {
    var collapsed := CollapseNewlines(getText(html));
    StripRemovesOnlyPadding(collapsed);
    var a :| PaddedAt(Strip(collapsed), collapsed, a);
    assert CleanHtml(html, getText) == Strip(collapsed);
    assert PaddedAt(CleanHtml(html, getText), collapsed, a);
  }
}
