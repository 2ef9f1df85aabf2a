/** Mapping a free-text question to at most one known condition and that condition to its
    MedlinePlus and CDC fact-sheet links. The disease table is a parameter: the entries of
    the ordered dictionary (key, spoken variations) in insertion order. So is the list of
    conditions that also get a CDC link; the one the service uses is `CdcDiseases`. */
module ConditionLinks {
  import opened Wrappers
  import opened Text

  datatype Entry = Entry(key: string, variations: seq<string>)

  datatype ConditionPage = ConditionPage(provider: string, title: string, url: string)

  /** The conditions that also get a CDC link in the service. */
  const CdcDiseases: seq<string> := [
    "flu", "diabetes", "heartdisease", "stroke", "cancer", "asthma", "tuberculosis",
    "hepatitis", "cholera", "measles", "mumps", "rubella", "malaria", "dengue",
    "zika", "ebola", "smallpox", "polio", "meningitis", "sepsis", "covid"
  ]

  // ---------------------------------------------------------------------------
  // Word-bounded search: re.search(r'\b' + re.escape(v) + r'\b', s)

  /** `\w` holds for the character at index `p` (false outside the text). */
  predicate WordCharAt(s: string, p: int) {
    0 <= p < |s| && IsWordChar(s[p])
  }

  /** `\b` holds at position `p`: exactly one of the characters around it is a word character. */
  predicate BoundaryAt(s: string, p: int) {
    WordCharAt(s, p - 1) != WordCharAt(s, p)
  }

  predicate MatchesWordAt(v: string, s: string, i: int) {
    OccursAt(v, s, i) && BoundaryAt(s, i) && BoundaryAt(s, i + |v|)
  }

  /** The pattern `\b<v>\b` is found somewhere in `s`. */
  predicate WordSearch(v: string, s: string) {
    exists i :: 0 <= i <= |s| && MatchesWordAt(v, s, i)
  }

  /** Some variation of the entry is found in the query. */
  predicate EntryMatches(e: Entry, q: string) {
    exists j :: 0 <= j < |e.variations| && WordSearch(e.variations[j], q)
  }

  /** `query.lower().strip()` */
  function NormalizeQuery(query: string): (r: string)
    ensures r == [] || (!IsSpace(r[0]) && !IsSpace(r[|r| - 1]))
    ensures IsSubstring(r, Lower(query))
  {
    Strip(Lower(query))
  }

  /** A variation glued to a longer word is not found: "tb" does not occur in "tbsp". */
  lemma EmbeddedVariationNotFound()
    ensures !WordSearch("tb", "tbsp")
  {
    forall i | 0 <= i <= 4
      ensures !MatchesWordAt("tb", "tbsp", i)
    {
      if i == 0 {
        assert !BoundaryAt("tbsp", 2) by {
          assert WordCharAt("tbsp", 1) && WordCharAt("tbsp", 2);
        }
      } else if i <= 2 {
        assert "tbsp"[i] != 't';
      }
    }
  }

  /** A variation standing as a word of its own is found: "flu" in "i think i have the flu". */
  lemma StandaloneVariationFound()
    ensures WordSearch("flu", "i think i have the flu")
  {
    var s := "i think i have the flu";
    assert MatchesWordAt("flu", s, 19) by {
      assert s[19..22] == "flu";
      assert !WordCharAt(s, 18) && WordCharAt(s, 19) && !WordCharAt(s, 22);
    }
  }

  // ---------------------------------------------------------------------------
  // Specification of the term extraction

  /** The keys of the matching entries, in table order: what the scan loop collects. */
  function MatchingKeys(table: seq<Entry>, q: string): seq<string> {
    if table == [] then []
    else
      var last := table[|table| - 1];
      MatchingKeys(table[..|table| - 1], q) + (if EntryMatches(last, q) then [last.key] else [])
  }

  /** The first key in table order whose entry matches the query. */
  function FirstMatch(table: seq<Entry>, q: string): (r: Option<string>)
    ensures r.None? <==> forall j :: 0 <= j < |table| ==> !EntryMatches(table[j], q)
    ensures r.Some? ==>
      exists f :: 0 <= f < |table| && table[f].key == r.value && EntryMatches(table[f], q)
        && forall j :: 0 <= j < f ==> !EntryMatches(table[j], q)
  {
    if table == [] then None
    else if EntryMatches(table[0], q) then Some(table[0].key)
    else
      var r := FirstMatch(table[1..], q);
      assert forall j :: 1 <= j < |table| ==> table[j] == table[1..][j - 1];
      if r.Some? then
        var f :| 0 <= f < |table[1..]| && table[1..][f].key == r.value && EntryMatches(table[1..][f], q)
          && forall j :: 0 <= j < f ==> !EntryMatches(table[1..][j], q);
        assert table[f + 1].key == r.value && EntryMatches(table[f + 1], q);
        assert forall j :: 0 <= j < f + 1 ==> !EntryMatches(table[j], q);
        r
      else
        r
  }

  lemma {:induction false} MatchingKeysEmpty(table: seq<Entry>, q: string)
    ensures MatchingKeys(table, q) == [] <==> forall j :: 0 <= j < |table| ==> !EntryMatches(table[j], q)
  {
    if table != [] {
      var init := table[..|table| - 1];
      MatchingKeysEmpty(init, q);
      assert forall j :: 0 <= j < |init| ==> init[j] == table[j];
    }
  }

  /** The collected keys start with the key of the first matching entry. */
  lemma {:induction false} MatchingKeysStartWithFirst(table: seq<Entry>, q: string, f: nat)
    requires f < |table| && EntryMatches(table[f], q)
    requires forall j :: 0 <= j < f ==> !EntryMatches(table[j], q)
    ensures MatchingKeys(table, q) != [] && MatchingKeys(table, q)[0] == table[f].key
  {
    var init := table[..|table| - 1];
    assert forall j :: 0 <= j < |init| ==> init[j] == table[j];
    if f == |table| - 1 {
      MatchingKeysEmpty(init, q);
    } else {
      MatchingKeysStartWithFirst(init, q, f);
    }
  }

  predicate NoDuplicates(s: seq<string>) {
    forall i, j :: 0 <= i < j < |s| ==> s[i] != s[j]
  }

  /** Order-preserving removal of repeated terms, first occurrence kept. */
  function Dedup(s: seq<string>): seq<string> {
    if s == [] then []
    else
      var d := Dedup(s[..|s| - 1]);
      if s[|s| - 1] in d then d else d + [s[|s| - 1]]
  }

  /** The dedupe pass keeps exactly the same terms, each once, and the first term first. */
  lemma {:induction false} DedupProperties(s: seq<string>)
    ensures forall x :: x in Dedup(s) <==> x in s
    ensures NoDuplicates(Dedup(s))
    ensures s != [] ==> Dedup(s) != [] && Dedup(s)[0] == s[0]
  {
    if s != [] {
      var init := s[..|s| - 1];
      DedupProperties(init);
      assert s == init + [s[|s| - 1]];
      if init == [] {
        assert Dedup(s) == [s[0]];
      }
    }
  }

  // ---------------------------------------------------------------------------
  // The imperative steps of _extract_disease_terms and find_condition_pages

  /** The nested scan: every entry with a matching variation adds its key once. */
  method CollectMatchingKeys(table: seq<Entry>, q: string) returns (found: seq<string>)
    ensures found == MatchingKeys(table, q)
  {
    found := [];
    var e := 0;
    while e < |table|
      invariant 0 <= e <= |table|
      invariant found == MatchingKeys(table[..e], q)
    {
      assert table[..e + 1][..e] == table[..e];
      var variations := table[e].variations;
      var j := 0;
      while j < |variations|
        invariant 0 <= j <= |variations|
        invariant found == MatchingKeys(table[..e], q)
        invariant forall j' :: 0 <= j' < j ==> !WordSearch(variations[j'], q)
      {
        if WordSearch(variations[j], q) {
          found := found + [table[e].key];
          break;
        }
        j := j + 1;
      }
      e := e + 1;
    }
    assert table[..|table|] == table;
  }

  /** The `seen`-set pass that removes repeated terms. */
  method RemoveDuplicates(found: seq<string>) returns (unique: seq<string>)
    ensures unique == Dedup(found)
  {
    var seen: set<string> := {};
    unique := [];
    var i := 0;
    while i < |found|
      invariant 0 <= i <= |found|
      invariant unique == Dedup(found[..i])
      invariant forall x :: x in seen <==> x in unique
    {
      assert found[..i + 1][..i] == found[..i];
      var term := found[i];
      if term !in seen {
        seen := seen + {term};
        unique := unique + [term];
      }
      i := i + 1;
    }
    assert found[..|found|] == found;
  }

  /** The deduplicated keys are empty exactly when no entry matches, and otherwise start
      with the key of the first matching entry. */
  lemma UniqueKeysStartWithFirstMatch(table: seq<Entry>, q: string)
    ensures FirstMatch(table, q).None? <==> Dedup(MatchingKeys(table, q)) == []
    ensures FirstMatch(table, q).Some? ==> Dedup(MatchingKeys(table, q))[0] == FirstMatch(table, q).value
  {
    var found := MatchingKeys(table, q);
    DedupProperties(found);
    MatchingKeysEmpty(table, q);
    var first := FirstMatch(table, q);
    if first.Some? {
      var f :| 0 <= f < |table| && table[f].key == first.value && EntryMatches(table[f], q)
        && forall j :: 0 <= j < f ==> !EntryMatches(table[j], q);
      MatchingKeysStartWithFirst(table, q, f);
    }
  }

  /** Keeping at most one of the distinct matching keys keeps the first match's key. */
  lemma FirstUniqueKey(table: seq<Entry>, q: string, unique: seq<string>)
    requires unique == Dedup(MatchingKeys(table, q))
    ensures FirstMatch(table, q).None? ==> (if |unique| <= 1 then unique else unique[..1]) == []
    ensures FirstMatch(table, q).Some? ==> (if |unique| <= 1 then unique else unique[..1]) == [FirstMatch(table, q).value]
  {
    UniqueKeysStartWithFirstMatch(table, q);
    if |unique| > 1 {
      assert unique[..1] == [unique[0]];
    }
  }

  /** `_extract_disease_terms(query)`: the key of the first table entry with a variation
      found, word-bounded, in the lower-cased and trimmed query; nothing when none is. */
  method ExtractDiseaseTerms(table: seq<Entry>, query: string) returns (terms: seq<string>)
    ensures |terms| <= 1
    ensures FirstMatch(table, NormalizeQuery(query)).None? ==> terms == []
    ensures FirstMatch(table, NormalizeQuery(query)).Some? ==> terms == [FirstMatch(table, NormalizeQuery(query)).value]
  {
    var q := NormalizeQuery(query);
    var found := CollectMatchingKeys(table, q);
    var unique := RemoveDuplicates(found);
    FirstUniqueKey(table, q, unique);
    terms := if |unique| <= 1 then unique else unique[..1];
  }

  /** `term.replace('', ' ')`: a space before every character and one at the end. */
  function Spread(s: string): string {
    if s == [] then " " else [' ', s[0]] + Spread(s[1..])
  }

  /** `str.title()` after a character that is (`prevCased`) or is not a letter: a letter
      following a letter is lower-cased, any other letter upper-cased. */
  function TitleAfter(s: string, prevCased: bool): string {
    if s == [] then []
    else
      var c := s[0];
      var t := if !IsLetter(c) then c else if prevCased then LowerChar(c) else UpperChar(c);
      [t] + TitleAfter(s[1..], IsLetter(c))
  }

  /** `s.title()` */
  function Title(s: string): string {
    TitleAfter(s, false)
  }

  /** Every character of `s` upper-cased and preceded by a space, with a space at the end. */
  function SpacedUpper(s: string): string {
    if s == [] then " " else [' ', UpperChar(s[0])] + SpacedUpper(s[1..])
  }

  lemma {:induction false} TitleOfSpread(s: string, prevCased: bool)
    ensures TitleAfter(Spread(s), prevCased) == SpacedUpper(s)
  {
    if s != [] {
      TitleOfSpread(s[1..], IsLetter(s[0]));
      assert Spread(s)[1..] == [s[0]] + Spread(s[1..]);
      assert Spread(s)[1..][1..] == Spread(s[1..]);
    }
  }

  /** The page title `f"{term.replace('', ' ').title()}{suffix}"`. */
  function PageTitle(term: string, suffix: string): (r: string)
    ensures r == SpacedUpper(term) + suffix
  {
    TitleOfSpread(term, false);
    Title(Spread(term)) + suffix
  }

  function MedlinePlusPage(term: string): (r: ConditionPage)
    ensures r.provider == "MedlinePlus" && r.url == "https://medlineplus.gov/" + term + ".html"
    ensures r.title == SpacedUpper(term) + " - MedlinePlus"
  {
    ConditionPage("MedlinePlus", PageTitle(term, " - MedlinePlus"), "https://medlineplus.gov/" + term + ".html")
  }

  function CdcPage(term: string): (r: ConditionPage)
    ensures r.provider == "CDC" && r.url == "https://www.cdc.gov/" + term + "/index.html"
    ensures r.title == SpacedUpper(term) + " - CDC"
  {
    ConditionPage("CDC", PageTitle(term, " - CDC"), "https://www.cdc.gov/" + term + "/index.html")
  }

  /** Titles come out letter-spaced: the page for "flu" is titled " F L U  - MedlinePlus". */
  lemma ThreeLetterTitle(a: char, b: char, c: char)
    ensures MedlinePlusPage([a, b, c]).title
      == [' ', UpperChar(a), ' ', UpperChar(b), ' ', UpperChar(c), ' '] + " - MedlinePlus"
  {
    assert [a, b, c][1..] == [b, c] && [b, c][1..] == [c] && [c][1..] == [];
    assert SpacedUpper([c]) == [' ', UpperChar(c), ' '];
    assert SpacedUpper([b, c]) == [' ', UpperChar(b), ' ', UpperChar(c), ' '];
  }

  /** The pages one recognised condition contributes: its MedlinePlus page, then its CDC
      page when the condition is on the CDC list. */
  function TermPages(term: string, cdcList: seq<string>): (r: seq<ConditionPage>)
    ensures 1 <= |r| <= 2 && r[0] == MedlinePlusPage(term)
    ensures |r| == 2 <==> term in cdcList
    ensures |r| == 2 ==> r[1] == CdcPage(term)
  {
    [MedlinePlusPage(term)] + (if term in cdcList then [CdcPage(term)] else [])
  }

  /** The pages a list of recognised conditions contributes, condition by condition. */
  function PagesFor(terms: seq<string>, cdcList: seq<string>): (r: seq<ConditionPage>)
    ensures terms == [] ==> r == []
  {
    if terms == [] then [] else PagesFor(terms[..|terms| - 1], cdcList) + TermPages(terms[|terms| - 1], cdcList)
  }

  /** One more condition appends its MedlinePlus page, then its CDC page when listed. */
  lemma PagesForSnoc(terms: seq<string>, i: int, cdcList: seq<string>)
    requires 0 <= i < |terms|
    ensures PagesFor(terms[..i + 1], cdcList) == PagesFor(terms[..i], cdcList) + [MedlinePlusPage(terms[i])]
      + (if terms[i] in cdcList then [CdcPage(terms[i])] else [])
  {
    assert terms[..i + 1][..i] == terms[..i];
  }

  /** A single recognised condition contributes exactly its own pages. */
  lemma PagesForOne(terms: seq<string>, cdcList: seq<string>)
    requires |terms| <= 1
    ensures PagesFor(terms, cdcList) == if terms == [] then [] else TermPages(terms[0], cdcList)
  {
    if terms != [] {
      assert terms[..0] == [];
    }
  }

  /** The loop of `find_condition_pages`: for each condition, its MedlinePlus page, then its
      CDC page when the condition is on the CDC list. */
  method CollectPages(terms: seq<string>, cdcList: seq<string>) returns (pages: seq<ConditionPage>)
    ensures pages == PagesFor(terms, cdcList)
  {
    pages := [];
    var i := 0;
    while i < |terms|
      invariant 0 <= i <= |terms|
      invariant pages == PagesFor(terms[..i], cdcList)
    {
      var term := terms[i];
      PagesForSnoc(terms, i, cdcList);
      pages := pages + [MedlinePlusPage(term)];
      if term in cdcList {
        pages := pages + [CdcPage(term)];
      }
      i := i + 1;
    }
    assert terms[..i] == terms;
  }

  /** In the service's CDC list "flu" gets both pages. */
  lemma FluGetsCdcPage()
    ensures TermPages("flu", CdcDiseases) == [MedlinePlusPage("flu"), CdcPage("flu")]
  {
    assert CdcDiseases[0] == "flu";
  }

  /** In the service's CDC list "migraine" gets only its MedlinePlus page. */
  lemma MigraineGetsNoCdcPage()
    ensures TermPages("migraine", CdcDiseases) == [MedlinePlusPage("migraine")]
  {
    assert "migraine" !in CdcDiseases;
  }

  /** `find_condition_pages(query)`: nothing when no condition is recognised; otherwise the
      MedlinePlus page of the condition, followed by its CDC page exactly when the
      condition is on the CDC list. */
  method FindConditionPages(table: seq<Entry>, cdcList: seq<string>, query: string) returns (pages: seq<ConditionPage>)
    ensures FirstMatch(table, NormalizeQuery(query)).None? ==> pages == []
    ensures FirstMatch(table, NormalizeQuery(query)).Some? ==>
      pages == TermPages(FirstMatch(table, NormalizeQuery(query)).value, cdcList)
  {
    var terms := ExtractDiseaseTerms(table, query);
    pages := CollectPages(terms, cdcList);
    PagesForOne(terms, cdcList);
  }

  /** `extract_symptoms_from_pages(pages)`: a placeholder that never extracts anything. */
  function ExtractSymptomsFromPages(pages: seq<ConditionPage>): (r: seq<string>)
    ensures r == []
  {
    []
  }
}
