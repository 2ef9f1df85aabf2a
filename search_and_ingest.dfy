/** Keyword-driven ingestion: search each site for each keyword, keep the normalised links
    that belong to the site, then fetch, clean and chunk every link in sorted order and write
    one corpus file per site. The site search, the page fetch, the HTML parser, the text
    splitter and md5 are not modelled: they arrive in an `Env` of functions. */
module SearchAndIngest {
  import opened Wrappers
  import opened Text
  import Common
  import Rag

  /** The sites, in dictionary order: (site key, domain). */
  const Domains: seq<(string, string)> := [("medlineplus", "medlineplus.gov"), ("cdc", "cdc.gov")]

  // ---------------------------------------------------------------------------
  // normalize_url, step 1: re.sub(r"#.*$", "", url)
  // `.` does not match a newline and `$` matches at the end or just before a final newline.

  /** Where `$` can close a match: before a final newline, otherwise at the end. */
  function FragmentEnd(url: string): nat {
    if url != [] && url[|url| - 1] == '\n' then |url| - 1 else |url|
  }

  /** `#.*$` matches at `p`: a '#' followed by no newline up to where `$` can match. */
  predicate FragmentAt(url: string, p: int) {
    0 <= p < FragmentEnd(url) && url[p] == '#'
    && forall q :: p <= q < FragmentEnd(url) ==> url[q] != '\n'
  }

  /** The leftmost match position at or after `from`. */
  function FirstFragment(url: string, from: nat): (r: Option<nat>)
    requires from <= |url|
    ensures r.Some? ==> (from <= r.value && FragmentAt(url, r.value)
      && forall q :: from <= q < r.value ==> !FragmentAt(url, q))
    ensures r.None? ==> forall q :: from <= q < |url| ==> !FragmentAt(url, q)
    decreases |url| - from
  {
    if from == |url| then None
    else if FragmentAt(url, from) then Some(from)
    else FirstFragment(url, from + 1)
  }

  /** `re.sub(r"#.*$", "", url)`: the URL changes exactly when the pattern matches, and then
      gets shorter; no character is added. */
  function StripFragment(url: string): (r: string)
    ensures |r| <= |url|
    ensures r == url <==> FirstFragment(url, 0).None?
    ensures forall c :: c in r ==> c in url
  {
    match FirstFragment(url, 0)
    case None => url
    case Some(p) => url[..p] + url[FragmentEnd(url)..]
  }

  // ---------------------------------------------------------------------------
  // normalize_url, step 2: re.sub(r"[?&]utm_[^=&]+=[^&]+", "", url)

  /** The length of the longest run of characters other than '=' and '&' at the front. */
  function KeyRun(s: string): (n: nat)
    ensures n <= |s|
  {
    if s == [] || s[0] == '=' || s[0] == '&' then 0 else 1 + KeyRun(s[1..])
  }

  /** The length of the longest run of characters other than '&' at the front. */
  function ValueRun(s: string): (n: nat)
    ensures n <= |s|
  {
    if s == [] || s[0] == '&' then 0 else 1 + ValueRun(s[1..])
  }

  /** The length of the match of `[?&]utm_[^=&]+=[^&]+` at the front of `s`, if there is one.
      Both runs are greedy and backtracking cannot help: a shorter key run ends before a
      character that is not '='. */
  function UtmMatch(s: string): (r: Option<nat>)
    ensures r.Some? ==> 8 <= r.value <= |s|
  {
    if |s| >= 5 && (s[0] == '?' || s[0] == '&') && s[1..5] == "utm_" then
      var a := KeyRun(s[5..]);
      if a >= 1 && 5 + a < |s| && s[5 + a] == '=' then
        var b := ValueRun(s[6 + a..]);
        if b >= 1 then Some(6 + a + b) else None
      else None
    else None
  }

  /** Scanning left to right, every match is removed and the scan resumes after it. */
  function StripUtm(s: string): (r: string)
    ensures |r| <= |s|
    decreases |s|
  {
    if s == [] then []
    else
      match UtmMatch(s)
      case Some(n) => StripUtm(s[n..])
      case None => [s[0]] + StripUtm(s[1..])
  }

  /** `normalize_url(url)`: never longer than the URL, and made of the URL's characters. */
  function NormalizeUrl(url: string): (r: string)
    ensures |r| <= |url|
    ensures forall c :: c in r ==> c in url
  {
    StripUtmKeepsCharacters(StripFragment(url));
    StripUtm(StripFragment(url))
  }

  lemma StripFragmentWithoutNewline(url: string)
    requires '\n' !in url
    ensures '#' !in StripFragment(url)
  {
    assert FragmentEnd(url) == |url|;
    match FirstFragment(url, 0)
    case None =>
      forall q | 0 <= q < |url|
        ensures url[q] != '#'
      {
        assert !FragmentAt(url, q);
      }
    case Some(p) =>
      assert StripFragment(url) == url[..p];
      forall q | 0 <= q < p
        ensures url[q] != '#'
      {
        assert !FragmentAt(url, q);
      }
  }

  lemma {:induction false} StripUtmKeepsCharacters(s: string)
    ensures forall c :: c in StripUtm(s) ==> c in s
    decreases |s|
  {
    if s != [] {
      match UtmMatch(s)
      case Some(n) =>
        StripUtmKeepsCharacters(s[n..]);
        assert forall c :: c in s[n..] ==> c in s;
      case None =>
        StripUtmKeepsCharacters(s[1..]);
        assert forall c :: c in s[1..] ==> c in s;
    }
  }

  /** For a URL without newlines the result holds no '#': the fragment is gone. */
  lemma NormalizeUrlDropsFragment(url: string)
    requires '\n' !in url
    ensures '#' !in NormalizeUrl(url)
  {
    StripFragmentWithoutNewline(url);
    StripUtmKeepsCharacters(StripFragment(url));
  }

  lemma {:induction false} StripUtmWithoutUtm(s: string)
    requires !IsSubstring("utm_", s)
    ensures StripUtm(s) == s
    decreases |s|
  {
    if s != [] {
      if |s| >= 5 {
        assert !OccursAt("utm_", s, 1);
      }
      assert UtmMatch(s).None?;
      assert !IsSubstring("utm_", s[1..]) by {
        if IsSubstring("utm_", s[1..]) {
          var i :| 0 <= i <= |s[1..]| && OccursAt("utm_", s[1..], i);
          assert s[i + 1..i + 5] == s[1..][i..i + 4];
          assert OccursAt("utm_", s, i + 1);
        }
      }
      StripUtmWithoutUtm(s[1..]);
      assert s == [s[0]] + s[1..];
    }
  }

  /** A URL holding neither '#' nor "utm_" comes back unchanged. */
  lemma NormalizeUrlKeepsCleanUrl(url: string)
    requires '#' !in url && !IsSubstring("utm_", url)
    ensures NormalizeUrl(url) == url
  {
    assert FirstFragment(url, 0).None?;
    StripUtmWithoutUtm(url);
  }

  lemma {:induction false} KeyRunAppend(x: string, y: string)
    requires y == [] || y[0] == '&'
    ensures KeyRun(x + y) == KeyRun(x)
  {
    if x != [] {
      assert (x + y)[1..] == x[1..] + y;
      KeyRunAppend(x[1..], y);
    }
  }

  lemma {:induction false} ValueRunAppend(x: string, y: string)
    requires y == [] || y[0] == '&'
    ensures ValueRun(x + y) == ValueRun(x)
  {
    if x != [] {
      assert (x + y)[1..] == x[1..] + y;
      ValueRunAppend(x[1..], y);
    }
  }

  /** A match found at the front of `a` is the same whether or not an '&'-parameter follows. */
  lemma UtmMatchAppend(a: string, b: string)
    requires a != [] && (b == [] || b[0] == '&')
    ensures UtmMatch(a + b) == UtmMatch(a)
  {
    var s := a + b;
    if |a| >= 5 {
      assert s[1..5] == a[1..5] && s[0] == a[0];
      if (a[0] == '?' || a[0] == '&') && a[1..5] == "utm_" {
        assert s[5..] == a[5..] + b;
        KeyRunAppend(a[5..], b);
        var k := KeyRun(a[5..]);
        if k >= 1 && 5 + k < |a| && a[5 + k] == '=' {
          assert s[6 + k..] == a[6 + k..] + b;
          ValueRunAppend(a[6 + k..], b);
        }
      }
    } else if |s| >= 5 {
      assert s[|a|] == b[0];
      assert s[1..5][|a| - 1] == s[|a|];
    }
  }

  /** Parameters are stripped independently: text followed by an '&'-parameter is stripped
      piece by piece. */
  lemma {:induction false} StripUtmAppend(a: string, b: string)
    requires b == [] || b[0] == '&'
    ensures StripUtm(a + b) == StripUtm(a) + StripUtm(b)
    decreases |a|
  {
    if a == [] {
      assert a + b == b;
    } else {
      UtmMatchAppend(a, b);
      match UtmMatch(a)
      case Some(n) =>
        assert (a + b)[n..] == a[n..] + b;
        StripUtmAppend(a[n..], b);
      case None =>
        assert (a + b)[1..] == a[1..] + b;
        StripUtmAppend(a[1..], b);
    }
  }

  lemma {:induction false} KeyRunPrefix(k: string, y: string)
    requires forall i :: 0 <= i < |k| ==> k[i] != '=' && k[i] != '&'
    ensures KeyRun(k + y) == |k| + KeyRun(y)
  {
    if k != [] {
      assert (k + y)[1..] == k[1..] + y;
      KeyRunPrefix(k[1..], y);
    } else {
      assert k + y == y;
    }
  }

  lemma {:induction false} ValueRunPrefix(v: string, y: string)
    requires forall i :: 0 <= i < |v| ==> v[i] != '&'
    ensures ValueRun(v + y) == |v| + ValueRun(y)
  {
    if v != [] {
      assert (v + y)[1..] == v[1..] + y;
      ValueRunPrefix(v[1..], y);
    } else {
      assert v + y == y;
    }
  }

  /** The regular expression matches a whole tracking parameter and stops at the next '&'. */
  lemma UtmMatchParameter(sep: char, k: string, v: string, rest: string)
    requires sep == '?' || sep == '&'
    requires k != [] && forall i :: 0 <= i < |k| ==> k[i] != '=' && k[i] != '&'
    requires v != [] && forall i :: 0 <= i < |v| ==> v[i] != '&'
    requires rest == [] || rest[0] == '&'
    ensures UtmMatch([sep] + "utm_" + k + "=" + v + rest) == Some(6 + |k| + |v|)
  {
    var tail := v + rest;
    var after := ['='] + tail;
    var keyed := k + after;
    var s := [sep] + "utm_" + k + "=" + v + rest;
    assert s == ([sep] + "utm_") + keyed;
    assert s[0] == sep;
    assert s[1..5] == "utm_";
    assert s[5..] == keyed;
    KeyRunPrefix(k, after);
    assert KeyRun(keyed) == |k|;
    assert s[5 + |k|] == '=' by {
      assert s[5 + |k|] == keyed[|k|] == after[0];
    }
    assert s[6 + |k|..] == tail by {
      assert keyed[|k| + 1..] == tail;
      assert s[6 + |k|..] == s[5..][|k| + 1..];
    }
    ValueRunPrefix(v, rest);
    assert ValueRun(tail) == |v|;
  }

  /** A tracking parameter `?utm_<k>=<v>` or `&utm_<k>=<v>` (the value running up to the
      next '&') disappears entirely. */
  lemma UtmParameterRemoved(sep: char, k: string, v: string, rest: string)
    requires sep == '?' || sep == '&'
    requires k != [] && forall i :: 0 <= i < |k| ==> k[i] != '=' && k[i] != '&'
    requires v != [] && forall i :: 0 <= i < |v| ==> v[i] != '&'
    requires rest == [] || rest[0] == '&'
    ensures StripUtm([sep] + "utm_" + k + "=" + v + rest) == StripUtm(rest)
  {
    var param := [sep] + "utm_" + k + "=" + v;
    UtmMatchParameter(sep, k, v, rest);
    assert |param| == 6 + |k| + |v|;
    assert (param + rest)[|param|..] == rest;
  }

  lemma {:induction false} StripUtmPlainPrefix(p: string, x: string)
    requires '?' !in p && '&' !in p
    ensures StripUtm(p + x) == p + StripUtm(x)
  {
    if p != [] {
      assert (p + x)[0] == p[0];
      assert UtmMatch(p + x).None?;
      assert (p + x)[1..] == p[1..] + x;
      StripUtmPlainPrefix(p[1..], x);
      assert p == [p[0]] + p[1..];
    } else {
      assert p + x == x;
    }
  }

  /** A fragment after a newline-free URL body is cut off exactly. */
  lemma StripFragmentBeforeHash(body: string, frag: string)
    requires '#' !in body && '\n' !in body
    requires frag != [] && frag[0] == '#' && '\n' !in frag
    ensures StripFragment(body + frag) == body
  {
    var url := body + frag;
    assert url[|url| - 1] == frag[|frag| - 1];
    assert FragmentEnd(url) == |url|;
    forall q | 0 <= q < |body|
      ensures !FragmentAt(url, q)
    {
      assert url[q] == body[q];
    }
    forall q | |body| <= q < |url|
      ensures url[q] != '\n'
    {
      assert url[q] == frag[q - |body|];
    }
    assert FragmentAt(url, |body|);
    assert url[..|body|] == body;
  }

  /** A parameter that is not a tracking one stays as it is, whether '?' or '&' leads it. */
  lemma StripUtmKeepsOtherParameter(sep: char, other: string)
    requires sep == '?' || sep == '&'
    requires '?' !in other && '&' !in other
    requires !StartsWith(other, "utm_")
    ensures StripUtm([sep] + other) == [sep] + other
  {
    var s := [sep] + other;
    if |s| >= 5 {
      assert s[1..5] == other[..4];
    }
    assert UtmMatch(s).None?;
    assert s[1..] == other;
    StripUtmPlainPrefix(other, []);
    assert other + [] == other;
  }

  /** When the first query parameter is a tracking one and another follows, the '?' goes
      with it: "https://medlineplus.gov/flu.html?utm_source=ddg&id=3" becomes
      "https://medlineplus.gov/flu.html&id=3", whose path now ends in "&id=3". */
  lemma LeadingUtmParameterTakesQuestionMark(path: string, k: string, v: string, other: string)
    requires '?' !in path && '&' !in path && '#' !in path
    requires k != [] && forall i :: 0 <= i < |k| ==> k[i] != '=' && k[i] != '&' && k[i] != '#'
    requires v != [] && forall i :: 0 <= i < |v| ==> v[i] != '&' && v[i] != '#'
    requires '?' !in other && '&' !in other && '#' !in other && !StartsWith(other, "utm_")
    ensures NormalizeUrl(path + "?utm_" + k + "=" + v + "&" + other) == path + "&" + other
  {
    var rest := ['&'] + other;
    var query := ['?'] + "utm_" + k + "=" + v + rest;
    var url := path + query;
    assert url == path + "?utm_" + k + "=" + v + "&" + other;
    assert '#' !in k && '#' !in v;
    assert '#' !in url;
    StripFragmentWithoutHash(url);
    StripUtmPlainPrefix(path, query);
    UtmParameterRemoved('?', k, v, rest);
    StripUtmKeepsOtherParameter('&', other);
  }

  /** A URL without '#' has no fragment to remove. */
  lemma StripFragmentWithoutHash(url: string)
    requires '#' !in url
    ensures StripFragment(url) == url
  {
    assert FirstFragment(url, 0).None?;
  }

  // ---------------------------------------------------------------------------
  // filter_domain

  /** `filter_domain(url, domain)`: an http(s) URL that mentions the domain anywhere. */
  predicate FilterDomain(url: string, domain: string)
    ensures FilterDomain(url, domain) ==> 7 <= |url| && |domain| <= |url|
  {
    (StartsWith(url, "http://") || StartsWith(url, "https://")) && IsSubstring(domain, url)
  }

  /** The domain may sit anywhere, not only in the host: a query string mentioning it is enough. */
  lemma DomainAnywherePasses()
    ensures FilterDomain("https://example.org/?r=cdc.gov", "cdc.gov")
  {
    var url := "https://example.org/?r=cdc.gov";
    assert url[..8] == "https://";
    assert OccursAt("cdc.gov", url, 23);
  }

  /** A URL accepted for a domain is accepted for every piece of that domain. */
  lemma FilterDomainPiece(url: string, domain: string, piece: string)
    requires FilterDomain(url, domain) && IsSubstring(piece, domain)
    ensures FilterDomain(url, piece)
  {
    SubstringTransitive(piece, domain, url);
  }

  // ---------------------------------------------------------------------------
  // Keyword cleaning: [k.strip() for k in keywords if k and k.strip()]

  /** Non-empty, with no whitespace at either end. */
  predicate Trimmed(s: string) {
    s != [] && !IsSpace(s[0]) && !IsSpace(s[|s| - 1])
  }

  /** The entry `k` survives the cleaning as `w`: it is present, and `w` is its non-empty trimmed form. */
  predicate KeptAs(k: Option<string>, w: string) {
    k.Some? && Strip(k.value) != [] && w == Strip(k.value)
  }

  /** `[k.strip() for k in keywords if k and k.strip()]`; None stands for a missing (falsy) keyword. */
  function CleanKeywords(keywords: seq<Option<string>>): (r: seq<string>)
    ensures |r| <= |keywords|
    ensures forall w :: w in r ==> Trimmed(w)
  {
    if keywords == [] then []
    else
      var rest := CleanKeywords(keywords[1..]);
      var k := keywords[0];
      if k.Some? && k.value != [] && Strip(k.value) != [] then [Strip(k.value)] + rest else rest
  }

  /** The kept keywords are exactly the trimmed forms of the present, non-blank entries. */
  lemma {:induction false} CleanKeywordsMembers(keywords: seq<Option<string>>)
    ensures forall w :: w in CleanKeywords(keywords) <==> exists i :: 0 <= i < |keywords| && KeptAs(keywords[i], w)
  {
    if keywords != [] {
      var tail := keywords[1..];
      CleanKeywordsMembers(tail);
      CleanKeywordsHead(keywords);
      forall w
        ensures w in CleanKeywords(keywords) <==> exists i :: 0 <= i < |keywords| && KeptAs(keywords[i], w)
      {
        if w in CleanKeywords(tail) {
          var j :| 0 <= j < |tail| && KeptAs(tail[j], w);
          assert KeptAs(keywords[j + 1], w);
        }
        if exists i :: 0 <= i < |keywords| && KeptAs(keywords[i], w) {
          var i :| 0 <= i < |keywords| && KeptAs(keywords[i], w);
          if i > 0 {
            assert KeptAs(tail[i - 1], w);
          }
        }
      }
    }
  }

  /** The first keyword is kept in front of the cleaned rest exactly when it is present and not blank. */
  lemma CleanKeywordsHead(keywords: seq<Option<string>>)
    requires keywords != []
    ensures forall w :: w in CleanKeywords(keywords) <==> KeptAs(keywords[0], w) || w in CleanKeywords(keywords[1..])
  {
    var k := keywords[0];
    if k.Some? && k.value == [] {
      assert Strip(k.value) == [];
    }
  }

  /** A single keyword is dropped when missing or blank, and kept as its trimmed form otherwise. */
  lemma CleanOneKeyword(k: Option<string>)
    ensures CleanKeywords([k]) == if k.Some? && Strip(k.value) != [] then [Strip(k.value)] else []
  {
    assert [k][1..] == [];
  }

  /** Cleaning keeps the keywords' order: cleaning a concatenation concatenates the cleanings. */
  lemma {:induction false} CleanKeywordsAppend(a: seq<Option<string>>, b: seq<Option<string>>)
    ensures CleanKeywords(a + b) == CleanKeywords(a) + CleanKeywords(b)
  {
    if a == [] {
      assert a + b == b;
    } else {
      assert (a + b)[1..] == a[1..] + b;
      CleanKeywordsAppend(a[1..], b);
    }
  }

  // ---------------------------------------------------------------------------
  // The environment of the pipeline

  datatype SearchResult = SearchResult(href: Option<string>, link: Option<string>)

  datatype Page = Page(title: string, html: string)

  /** The site search (keyword, domain, max results), the fetch (None when it raises), the
      parser's text extraction, the splitter (text, size, overlap) and the md5 hex digest. */
  datatype Env = Env(
    search: (string, string, nat) -> seq<SearchResult>,
    fetch: string -> Option<Page>,
    getText: string -> string,
    split: (string, nat, nat) -> seq<string>,
    digest: string -> string)

  /** `r.get("href") or r.get("link") or ""` */
  function ResultLink(r: SearchResult): (u: string)
    ensures u != "" <==> (r.href.Some? && r.href.value != "") || (r.link.Some? && r.link.value != "")
    ensures r.href.Some? && r.href.value != "" ==> u == r.href.value
    ensures u != "" ==> (r.href.Some? && u == r.href.value) || (r.link.Some? && u == r.link.value)
  {
    if r.href.Some? && r.href.value != "" then r.href.value
    else if r.link.Some? && r.link.value != "" then r.link.value
    else ""
  }

  /** The normalised link of a search result. */
  function ResultUrl(r: SearchResult): string {
    NormalizeUrl(ResultLink(r))
  }

  /** The guard `url and filter_domain(url, domain)`. */
  predicate Accepts(url: string, domain: string) {
    url != "" && FilterDomain(url, domain)
  }

  /** The normalised link of one result when it is accepted, nothing otherwise. */
  function AcceptedLink(r: SearchResult, domain: string): seq<string> {
    var url := ResultUrl(r);
    if Accepts(url, domain) then [url] else []
  }

  /** The normalised links of some results that are non-empty and pass the domain filter, in order. */
  function AcceptedUrls(results: seq<SearchResult>, domain: string): seq<string> {
    if results == [] then []
    else AcceptedUrls(results[..|results| - 1], domain) + AcceptedLink(results[|results| - 1], domain)
  }

  /** All accepted links of one site over all keywords, in visiting order. */
  function Candidates(kws: seq<string>, domain: string, maxPerSite: nat, env: Env): seq<string> {
    if kws == [] then []
    else
      var n := |kws| - 1;
      Candidates(kws[..n], domain, maxPerSite, env) + AcceptedUrls(env.search(kws[n], domain, maxPerSite), domain)
  }

  predicate StrictlySorted(s: seq<string>) {
    forall i, j :: 0 <= i < j < |s| ==> LexLess(s[i], s[j])
  }

  /** `set.add(u)` on a set kept as its sorted list. */
  function InsertSorted(s: seq<string>, u: string): seq<string> {
    if s == [] then [u]
    else if s[0] == u then s
    else if LexLess(u, s[0]) then [u] + s
    else [s[0]] + InsertSorted(s[1..], u)
  }

  lemma {:induction false} InsertSortedKeepsOrder(s: seq<string>, u: string)
    requires StrictlySorted(s)
    ensures StrictlySorted(InsertSorted(s, u))
    ensures forall x :: x in InsertSorted(s, u) <==> x in s || x == u
  {
    var r := InsertSorted(s, u);
    if s == [] || s[0] == u {
    } else if LexLess(u, s[0]) {
      forall i, j | 0 <= i < j < |r|
        ensures LexLess(r[i], r[j])
      {
        if i == 0 {
          if j > 1 {
            LexTransitive(u, s[0], s[j - 1]);
          }
        } else {
          assert r[i] == s[i - 1] && r[j] == s[j - 1];
        }
      }
    } else {
      LexTotal(u, s[0]);
      var tail := s[1..];
      InsertSortedKeepsOrder(tail, u);
      var rest := InsertSorted(tail, u);
      assert r == [s[0]] + rest;
      forall i, j | 0 <= i < j < |r|
        ensures LexLess(r[i], r[j])
      {
        if i == 0 {
          assert r[j] in rest;
          if r[j] != u {
            var t :| 0 <= t < |tail| && tail[t] == r[j];
            assert s[t + 1] == r[j];
          }
        } else {
          assert r[i] == rest[i - 1] && r[j] == rest[j - 1];
        }
      }
      assert forall x :: x in s <==> x == s[0] || x in tail;
    }
  }

  /** The set `start` after adding `urls` one by one. */
  function AddUrls(start: seq<string>, urls: seq<string>): seq<string> {
    if urls == [] then start else InsertSorted(AddUrls(start, urls[..|urls| - 1]), urls[|urls| - 1])
  }

  /** The sorted list holds each link of `start` and of `urls` exactly once and nothing else. */
  lemma {:induction false} AddUrlsSorted(start: seq<string>, urls: seq<string>)
    requires StrictlySorted(start)
    ensures StrictlySorted(AddUrls(start, urls))
    ensures forall x :: x in AddUrls(start, urls) <==> x in start || x in urls
  {
    if urls != [] {
      var init := urls[..|urls| - 1];
      AddUrlsSorted(start, init);
      InsertSortedKeepsOrder(AddUrls(start, init), urls[|urls| - 1]);
      assert urls == init + [urls[|urls| - 1]];
    }
  }

  /** Adding two batches of links is adding their concatenation. */
  lemma {:induction false} AddUrlsAppend(start: seq<string>, xs: seq<string>, ys: seq<string>)
    ensures AddUrls(start, xs + ys) == AddUrls(AddUrls(start, xs), ys)
  {
    if ys == [] {
      assert xs + ys == xs;
    } else {
      var n := |ys| - 1;
      assert (xs + ys)[..|xs + ys| - 1] == xs + ys[..n];
      AddUrlsAppend(start, xs, ys[..n]);
    }
  }

  lemma SameMembersBothEmpty(a: seq<string>, b: seq<string>)
    requires forall x :: x in a <==> x in b
    ensures a == [] <==> b == []
  {
    if a != [] {
      assert a[0] in a;
    }
    if b != [] {
      assert b[0] in b;
    }
  }

  /** Two sorted lists with the same members are the same list: the sorted list of a set is
      determined by the set. */
  lemma {:induction false} SortedListsUnique(a: seq<string>, b: seq<string>)
    requires StrictlySorted(a) && StrictlySorted(b)
    requires forall x :: x in a <==> x in b
    ensures a == b
  {
    SameMembersBothEmpty(a, b);
    if a != [] && b != [] {
      assert a[0] in b && b[0] in a;
      if a[0] != b[0] {
        var i :| 0 <= i < |b| && b[i] == a[0];
        var j :| 0 <= j < |a| && a[j] == b[0];
        assert LexLess(b[0], a[0]) by { assert i > 0; }
        assert LexLess(a[0], b[0]) by { assert j > 0; }
        LexTransitive(a[0], b[0], a[0]);
        LexIrreflexive(a[0]);
      }
      forall x | true
        ensures x in a[1..] <==> x in b[1..]
      {
        if x in a[1..] {
          var k :| 0 <= k < |a[1..]| && a[1..][k] == x;
          assert a[k + 1] == x && LexLess(a[0], x);
          LexIrreflexive(x);
        }
        if x in b[1..] {
          var k :| 0 <= k < |b[1..]| && b[1..][k] == x;
          assert b[k + 1] == x && LexLess(b[0], x);
          LexIrreflexive(x);
        }
        assert x in a <==> x == a[0] || x in a[1..];
        assert x in b <==> x == b[0] || x in b[1..];
      }
      SortedListsUnique(a[1..], b[1..]);
      assert a == [a[0]] + a[1..] && b == [b[0]] + b[1..];
    }
  }

  /** The links collected for site number `s`, in the order they are fetched. */
  function SiteUrls(kws: seq<string>, s: nat, maxPerSite: nat, env: Env): seq<string>
    requires s < |Domains|
  {
    AddUrls([], Candidates(kws, Domains[s].1, maxPerSite, env))
  }

  // ---------------------------------------------------------------------------
  // Fetch and chunk

  lemma {:induction false} AcceptedUrlsPass(results: seq<SearchResult>, domain: string)
    ensures forall u :: u in AcceptedUrls(results, domain) ==> u != "" && FilterDomain(u, domain)
  {
    if results != [] {
      AcceptedUrlsPass(results[..|results| - 1], domain);
    }
  }

  lemma {:induction false} CandidatesPass(kws: seq<string>, domain: string, maxPerSite: nat, env: Env)
    ensures forall u :: u in Candidates(kws, domain, maxPerSite, env) ==> u != "" && FilterDomain(u, domain)
  {
    if kws != [] {
      var n := |kws| - 1;
      CandidatesPass(kws[..n], domain, maxPerSite, env);
      AcceptedUrlsPass(env.search(kws[n], domain, maxPerSite), domain);
    }
  }

  /** A site's links are its accepted search results, each once, in sorted order; every one
      is non-empty and passes the domain filter. */
  lemma SiteUrlsCollected(kws: seq<string>, s: nat, maxPerSite: nat, env: Env)
    requires s < |Domains|
    ensures StrictlySorted(SiteUrls(kws, s, maxPerSite, env))
    ensures forall u :: u in SiteUrls(kws, s, maxPerSite, env) <==> u in Candidates(kws, Domains[s].1, maxPerSite, env)
    ensures forall u :: u in SiteUrls(kws, s, maxPerSite, env) ==> u != "" && FilterDomain(u, Domains[s].1)
  {
    AddUrlsSorted([], Candidates(kws, Domains[s].1, maxPerSite, env));
    CandidatesPass(kws, Domains[s].1, maxPerSite, env);
  }

  /** The splitter's chunks of a page's cleaned text, with the default size and overlap. */
  function PageChunks(page: Page, env: Env): seq<string> {
    env.split(Common.CleanHtml(page.html, env.getText), Common.DefaultChunkSize, Common.DefaultChunkOverlap)
  }

  /** The records one link contributes: none when the fetch fails, otherwise the chunks of its cleaned text. */
  function UrlRecords(url: string, env: Env): seq<Common.ChunkRecord> {
    match env.fetch(url)
    case None => []
    case Some(page) => Common.ChunkRecords(PageChunks(page, env), url, page.title, env.digest)
  }

  function SiteRecords(urls: seq<string>, env: Env): seq<Common.ChunkRecord> {
    if urls == [] then []
    else SiteRecords(urls[..|urls| - 1], env) + UrlRecords(urls[|urls| - 1], env)
  }

  lemma SiteRecordsSnoc(urls: seq<string>, i: nat, env: Env)
    requires i < |urls|
    ensures SiteRecords(urls[..i + 1], env) == SiteRecords(urls[..i], env) + UrlRecords(urls[i], env)
  {
    assert urls[..i + 1][..i] == urls[..i];
  }

  lemma {:induction false} SiteRecordSources(urls: seq<string>, env: Env)
    ensures forall i :: 0 <= i < |SiteRecords(urls, env)| ==> SiteRecords(urls, env)[i].source in urls
  {
    if urls != [] {
      var init := urls[..|urls| - 1];
      var u := urls[|urls| - 1];
      var front: seq<Common.ChunkRecord> := SiteRecords(init, env);
      var back: seq<Common.ChunkRecord> := UrlRecords(u, env);
      SiteRecordSources(init, env);
      UrlRecordsOfOneSource(u, env);
      assert SiteRecords(urls, env) == front + back;
      forall i | 0 <= i < |front + back|
        ensures (front + back)[i].source in urls
      {
        if i < |front| {
          assert (front + back)[i] == front[i];
          var k :| 0 <= k < |init| && init[k] == front[i].source;
          assert urls[k] == front[i].source;
        } else {
          assert (front + back)[i] == back[i - |front|];
          assert urls[|urls| - 1] == u;
        }
      }
    }
  }

  /** No two records share the pair (source, chunk_id). */
  predicate KeysDistinct(recs: seq<Common.ChunkRecord>) {
    forall i, j :: 0 <= i < j < |recs| ==> (recs[i].source, recs[i].chunkId) != (recs[j].source, recs[j].chunkId)
  }

  /** The records of one link all name that link as their source and are numbered apart. */
  lemma UrlRecordsOfOneSource(u: string, env: Env)
    ensures forall i :: 0 <= i < |UrlRecords(u, env)| ==> UrlRecords(u, env)[i].source == u
    ensures KeysDistinct(UrlRecords(u, env))
  {
    match env.fetch(u)
    case None =>
    case Some(page) =>
      var recs := Common.ChunkRecords(PageChunks(page, env), u, page.title, env.digest);
      assert UrlRecords(u, env) == recs;
      Common.ChunkRecordsNumbered(PageChunks(page, env), u, page.title, env.digest);
  }

  lemma KeysDistinctAppend(front: seq<Common.ChunkRecord>, back: seq<Common.ChunkRecord>, u: string)
    requires KeysDistinct(front) && KeysDistinct(back)
    requires forall i :: 0 <= i < |back| ==> back[i].source == u
    requires forall i :: 0 <= i < |front| ==> front[i].source != u
    ensures KeysDistinct(front + back)
  {
    var all := front + back;
    forall i, j | 0 <= i < j < |all|
      ensures (all[i].source, all[i].chunkId) != (all[j].source, all[j].chunkId)
    {
      if j < |front| {
        assert all[i] == front[i] && all[j] == front[j];
      } else if i >= |front| {
        assert all[i] == back[i - |front|] && all[j] == back[j - |front|];
      } else {
        assert all[i] == front[i] && all[j] == back[j - |front|];
      }
    }
  }

  /** In one site's file, no two records share the pair (source, chunk_id). */
  lemma {:induction false} SiteRecordKeysDistinct(urls: seq<string>, env: Env)
    requires StrictlySorted(urls)
    ensures KeysDistinct(SiteRecords(urls, env))
  {
    if urls != [] {
      var init := urls[..|urls| - 1];
      var u := urls[|urls| - 1];
      assert StrictlySorted(init);
      SiteRecordKeysDistinct(init, env);
      SiteRecordSources(init, env);
      assert u !in init by {
        if u in init {
          var k :| 0 <= k < |init| && init[k] == u;
          assert LexLess(urls[k], urls[|urls| - 1]);
          LexIrreflexive(u);
        }
      }
      UrlRecordsOfOneSource(u, env);
      KeysDistinctAppend(SiteRecords(init, env), UrlRecords(u, env), u);
    }
  }

  /** The line `json.dumps(d)` writes for a record, as the loader decodes it again. */
  function RecordLine(d: Common.ChunkRecord): Rag.JsonLine {
    Rag.Decoded(Rag.JObject(Rag.Record(Some(d.pageContent), Some(Rag.Metadata(Some(d.title), Some(d.source), Some(d.chunkId))))))
  }

  function RecordLines(docs: seq<Common.ChunkRecord>): seq<Rag.JsonLine> {
    seq(|docs|, i requires 0 <= i < |docs| => RecordLine(docs[i]))
  }

  function SiteFile(s: nat): string
    requires s < |Domains|
  {
    Domains[s].0 + ".jsonl"
  }

  /** The records site number `s` produces. */
  function SiteDocs(kws: seq<string>, s: nat, maxPerSite: nat, env: Env): seq<Common.ChunkRecord>
    requires s < |Domains|
  {
    SiteRecords(SiteUrls(kws, s, maxPerSite, env), env)
  }

  /** The records of every site, in site order. */
  function AllSiteDocs(kws: seq<string>, maxPerSite: nat, env: Env): (r: seq<seq<Common.ChunkRecord>>)
    ensures |r| == |Domains|
  {
    seq(|Domains|, s requires 0 <= s < |Domains| => SiteDocs(kws, s, maxPerSite, env))
  }

  /** The number of records the first `n` sites write. */
  function TotalRecords(docsBySite: seq<seq<Common.ChunkRecord>>, n: nat): nat
    requires n <= |docsBySite|
  {
    if n == 0 then 0 else TotalRecords(docsBySite, n - 1) + |docsBySite[n - 1]|
  }

  /** The corpus directory after the first `n` sites: a site with records has its file
      replaced by them, a site without records is skipped. */
  function WriteSites(store: Rag.Store, docsBySite: seq<seq<Common.ChunkRecord>>, n: nat): Rag.Store
    requires n <= |docsBySite| <= |Domains|
  {
    if n == 0 then store
    else
      var before := WriteSites(store, docsBySite, n - 1);
      if docsBySite[n - 1] != [] then before[SiteFile(n - 1) := RecordLines(docsBySite[n - 1])] else before
  }

  /** What ingestion leaves in the corpus directory: each site file holds exactly the site's
      records when it has some and is left as it was otherwise, and no other file changes. */
  lemma WriteSitesFiles(store: Rag.Store, docsBySite: seq<seq<Common.ChunkRecord>>)
    requires |docsBySite| == |Domains|
    ensures forall s :: 0 <= s < |Domains| ==>
      var w := WriteSites(store, docsBySite, |Domains|);
      if docsBySite[s] != [] then SiteFile(s) in w && w[SiteFile(s)] == RecordLines(docsBySite[s])
      else (SiteFile(s) in w <==> SiteFile(s) in store) && (SiteFile(s) in store ==> w[SiteFile(s)] == store[SiteFile(s)])
    ensures forall f :: f != SiteFile(0) && f != SiteFile(1) ==>
      var w := WriteSites(store, docsBySite, |Domains|);
      (f in w <==> f in store) && (f in store ==> w[f] == store[f])
  {
    assert SiteFile(0) == "medlineplus.jsonl" && SiteFile(1) == "cdc.jsonl";
    assert WriteSites(store, docsBySite, 0) == store;
    var w1 := WriteSites(store, docsBySite, 1);
    assert w1 == if docsBySite[0] != [] then store[SiteFile(0) := RecordLines(docsBySite[0])] else store;
  }

  /** The count returned is the number of records written, over both sites. */
  lemma TotalRecordsBothSites(docsBySite: seq<seq<Common.ChunkRecord>>)
    requires |docsBySite| == |Domains|
    ensures TotalRecords(docsBySite, |Domains|) == |docsBySite[0]| + |docsBySite[1]|
  {
    assert TotalRecords(docsBySite, 1) == |docsBySite[0]|;
  }

  /** Every file ingestion writes has distinct (source, chunk_id) keys. */
  lemma WrittenFilesKeysDistinct(kws: seq<string>, s: nat, maxPerSite: nat, env: Env)
    requires s < |Domains|
    ensures KeysDistinct(SiteDocs(kws, s, maxPerSite, env))
  {
    SiteUrlsCollected(kws, s, maxPerSite, env);
    SiteRecordKeysDistinct(SiteUrls(kws, s, maxPerSite, env), env);
  }

  // ---------------------------------------------------------------------------
  // The imperative pipeline

  lemma AcceptedUrlsSnoc(results: seq<SearchResult>, j: nat, domain: string)
    requires j < |results|
    ensures AcceptedUrls(results[..j + 1], domain) == AcceptedUrls(results[..j], domain) + AcceptedLink(results[j], domain)
  {
    var prefix := results[..j + 1];
    assert prefix[..|prefix| - 1] == results[..j];
    assert prefix[|prefix| - 1] == results[j];
  }

  lemma AddUrlsSnoc(start: seq<string>, xs: seq<string>, u: string)
    ensures AddUrls(start, xs + [u]) == InsertSorted(AddUrls(start, xs), u)
  {
    assert (xs + [u])[..|xs|] == xs;
  }

  /** One more search result either adds its accepted link to the set or leaves it as it is. */
  lemma AddAcceptedStep(urls: seq<string>, results: seq<SearchResult>, j: nat, domain: string)
    requires j < |results|
    ensures AddUrls(urls, AcceptedUrls(results[..j + 1], domain)) ==
      var before := AddUrls(urls, AcceptedUrls(results[..j], domain));
      var url := ResultUrl(results[j]);
      if Accepts(url, domain) then InsertSorted(before, url) else before
  {
    AcceptedUrlsSnoc(results, j, domain);
    var url := ResultUrl(results[j]);
    var xs := AcceptedUrls(results[..j], domain);
    if Accepts(url, domain) {
      assert AcceptedLink(results[j], domain) == [url];
      AddUrlsSnoc(urls, xs, url);
    } else {
      assert xs + AcceptedLink(results[j], domain) == xs;
    }
  }

  /** One more keyword adds that keyword's accepted links to a site's set. */
  lemma SiteUrlsStep(kws: seq<string>, i: nat, s: nat, maxPerSite: nat, env: Env)
    requires i < |kws| && s < |Domains|
    ensures SiteUrls(kws[..i + 1], s, maxPerSite, env)
      == AddUrls(SiteUrls(kws[..i], s, maxPerSite, env), AcceptedUrls(env.search(kws[i], Domains[s].1, maxPerSite), Domains[s].1))
  {
    var domain := Domains[s].1;
    assert kws[..i + 1][..i] == kws[..i];
    AddUrlsAppend([], Candidates(kws[..i], domain, maxPerSite, env), AcceptedUrls(env.search(kws[i], domain, maxPerSite), domain));
  }

  /** The innermost loop of step 1: add each accepted normalised link of one search to the
      site's set. */
  method AddAccepted(urls: seq<string>, results: seq<SearchResult>, domain: string) returns (next: seq<string>)
    ensures next == AddUrls(urls, AcceptedUrls(results, domain))
  {
    next := urls;
    var j := 0;
    while j < |results|
      invariant 0 <= j <= |results|
      invariant next == AddUrls(urls, AcceptedUrls(results[..j], domain))
    {
      var url := ResultUrl(results[j]);
      AddAcceptedStep(urls, results, j, domain);
      if Accepts(url, domain) {
        next := InsertSorted(next, url);
      }
      j := j + 1;
    }
    assert results[..|results|] == results;
  }

  /** Step 1 of `ingest_from_keywords`: search every site for every keyword and add each
      accepted normalised link to that site's set, kept as its sorted list. */
  method CollectUrls(kws: seq<string>, maxPerSite: nat, env: Env) returns (urlsBySite: seq<seq<string>>)
    ensures |urlsBySite| == |Domains|
    ensures forall s :: 0 <= s < |Domains| ==> urlsBySite[s] == SiteUrls(kws, s, maxPerSite, env)
  {
    urlsBySite := [[], []];
    var i := 0;
    while i < |kws|
      invariant 0 <= i <= |kws|
      invariant |urlsBySite| == |Domains|
      invariant forall s :: 0 <= s < |Domains| ==> urlsBySite[s] == SiteUrls(kws[..i], s, maxPerSite, env)
    {
      assert kws[..i + 1][..i] == kws[..i];
      var kw := kws[i];
      var s := 0;
      while s < |Domains|
        invariant 0 <= s <= |Domains|
        invariant |urlsBySite| == |Domains|
        invariant forall t :: 0 <= t < s ==> urlsBySite[t] == SiteUrls(kws[..i + 1], t, maxPerSite, env)
        invariant forall t :: s <= t < |Domains| ==> urlsBySite[t] == SiteUrls(kws[..i], t, maxPerSite, env)
      {
        var domain := Domains[s].1;
        var results := env.search(kw, domain, maxPerSite);
        SiteUrlsStep(kws, i, s, maxPerSite, env);
        var next := AddAccepted(urlsBySite[s], results, domain);
        urlsBySite := urlsBySite[s := next];
        s := s + 1;
      }
      i := i + 1;
    }
    assert kws[..|kws|] == kws;
  }

  /** Step 2 for one site: fetch, clean and chunk each link in sorted order, skipping a
      link whose fetch fails. */
  method IngestSite(urls: seq<string>, env: Env) returns (docs: seq<Common.ChunkRecord>)
    ensures docs == SiteRecords(urls, env)
  {
    docs := [];
    var i := 0;
    while i < |urls|
      invariant 0 <= i <= |urls|
      invariant docs == SiteRecords(urls[..i], env)
    {
      SiteRecordsSnoc(urls, i, env);
      var url := urls[i];
      var page := env.fetch(url);
      if page.Some? {
        var text := Common.CleanHtml(page.value.html, env.getText);
        var chunks := Common.ChunkText(text, url, page.value.title, Common.DefaultChunkSize, Common.DefaultChunkOverlap,
                                       env.split, env.digest);
        assert chunks == UrlRecords(url, env);
        docs := docs + chunks;
      } else {
        assert UrlRecords(url, env) == [];
        assert docs + [] == docs;
      }
      i := i + 1;
    }
    assert urls[..|urls|] == urls;
  }

  /** `ingest_from_keywords(keywords, max_per_site)` over a corpus directory: the directory
      afterwards and the number of records written (see `WriteSitesFiles`). */
  method IngestFromKeywords(keywords: seq<Option<string>>, maxPerSite: nat, env: Env, store: Rag.Store)
    returns (total: nat, written: Rag.Store)
    ensures total == TotalRecords(AllSiteDocs(CleanKeywords(keywords), maxPerSite, env), |Domains|)
    ensures written == WriteSites(store, AllSiteDocs(CleanKeywords(keywords), maxPerSite, env), |Domains|)
  {
    var kws := CleanKeywords(keywords);
    ghost var all := AllSiteDocs(kws, maxPerSite, env);
    var urlsBySite := CollectUrls(kws, maxPerSite, env);
    total := 0;
    written := store;
    var s := 0;
    while s < |Domains|
      invariant 0 <= s <= |Domains|
      invariant total == TotalRecords(all, s)
      invariant written == WriteSites(store, all, s)
    {
      var docs := IngestSite(urlsBySite[s], env);
      assert docs == all[s];
      if docs != [] {
        written := written[SiteFile(s) := RecordLines(docs)];
        total := total + |docs|;
      }
      s := s + 1;
    }
  }

  /** What ingestion writes, the retriever reads back: the file of a site with records
      decodes to those records, in order, with the same text, source, title and number. */
  lemma WrittenFileLoadsBack(docs: seq<Common.ChunkRecord>, store: Rag.Store, file: string)
    requires file in store && store[file] == RecordLines(docs)
    ensures |Rag.FileItems(store, file)| == |docs|
    ensures forall i :: 0 <= i < |docs| ==>
      Rag.FileItems(store, file)[i]
        == Rag.Record(Some(docs[i].pageContent), Some(Rag.Metadata(Some(docs[i].title), Some(docs[i].source), Some(docs[i].chunkId))))
  {
    RecordLinesDecode(docs);
  }

  lemma {:induction false} RecordLinesDecode(docs: seq<Common.ChunkRecord>)
    ensures |Rag.DecodedObjects(RecordLines(docs))| == |docs|
    ensures forall i :: 0 <= i < |docs| ==>
      Rag.DecodedObjects(RecordLines(docs))[i]
        == Rag.Record(Some(docs[i].pageContent), Some(Rag.Metadata(Some(docs[i].title), Some(docs[i].source), Some(docs[i].chunkId))))
  {
    if docs != [] {
      var init := docs[..|docs| - 1];
      RecordLinesDecode(init);
      assert RecordLines(docs)[..|docs| - 1] == RecordLines(init);
    }
  }
}
