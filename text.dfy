/** The Python `str` operations the core relies on, restricted to ASCII:
    case mapping, `\w`, `str.isspace`, `in`, `startswith`, `strip`, `join`,
    `f"{n}"` and the ordering `sorted` uses. */
module Text {

  predicate IsUpper(c: char) { 'A' <= c <= 'Z' }
  predicate IsLower(c: char) { 'a' <= c <= 'z' }
  predicate IsLetter(c: char) { IsUpper(c) || IsLower(c) }
  predicate IsDigit(c: char) { '0' <= c <= '9' }

  /** The characters `\w` matches. */
  predicate IsWordChar(c: char) { IsLetter(c) || IsDigit(c) || c == '_' }

  /** The characters `str.isspace` accepts. */
  predicate IsSpace(c: char) { c == ' ' || 9 <= c as int <= 13 || 28 <= c as int <= 31 }

  function LowerChar(c: char): char { if IsUpper(c) then (c as int + 32) as char else c }
  function UpperChar(c: char): char { if IsLower(c) then (c as int - 32) as char else c }

  /** `s.lower()` */
  function Lower(s: string): (r: string)
    ensures |r| == |s| && forall i :: 0 <= i < |s| ==> r[i] == LowerChar(s[i])
  {
    seq(|s|, i requires 0 <= i < |s| => LowerChar(s[i]))
  }

  lemma LowerIdempotent(s: string)
    ensures Lower(Lower(s)) == Lower(s)
  {
  }

  /** `pat` occurs in `s` starting at index `i`. */
  predicate OccursAt(pat: string, s: string, i: int) {
    0 <= i && i + |pat| <= |s| && s[i..i + |pat|] == pat
  }

  /** `pat in s` */
  predicate IsSubstring(pat: string, s: string) {
    exists i :: 0 <= i <= |s| && OccursAt(pat, s, i)
  }

  /** `s.startswith(p)` */
  predicate StartsWith(s: string, p: string) {
    |p| <= |s| && s[..|p|] == p
  }

  lemma SubstringTransitive(a: string, b: string, c: string)
    requires IsSubstring(a, b) && IsSubstring(b, c)
    ensures IsSubstring(a, c)
  {
    var i :| 0 <= i <= |b| && OccursAt(a, b, i);
    var j :| 0 <= j <= |c| && OccursAt(b, c, j);
    forall k | 0 <= k < |a|
      ensures c[j + i + k] == a[k]
    {
      assert c[j + i + k] == c[j..j + |b|][i + k] == b[i + k];
      assert b[i + k] == b[i..i + |a|][k];
    }
    assert c[j + i..j + i + |a|] == a;
    assert OccursAt(a, c, j + i);
  }

  lemma LowerSubstring(a: string, b: string)
    requires IsSubstring(a, b)
    ensures IsSubstring(Lower(a), Lower(b))
  {
    var i :| 0 <= i <= |b| && OccursAt(a, b, i);
    assert Lower(b)[i..i + |a|] == Lower(a);
    assert OccursAt(Lower(a), Lower(b), i);
  }

  lemma SubstringOfLonger(pat: string, s: string)
    requires |s| < |pat|
    ensures !IsSubstring(pat, s)
  {
  }

  /** `s.lstrip()` */
  function StripLeft(s: string): (r: string)
    ensures |r| <= |s| && r == s[|s| - |r|..]
    ensures r == [] || !IsSpace(r[0])
    ensures forall i :: 0 <= i < |s| - |r| ==> IsSpace(s[i])
  {
    if s != [] && IsSpace(s[0]) then
      assert forall i :: 1 <= i < |s| ==> s[1..][i - 1] == s[i];
      StripLeft(s[1..])
    else s
  }

  /** `s.rstrip()` */
  function StripRight(s: string): (r: string)
    ensures |r| <= |s| && r == s[..|r|]
    ensures r == [] || !IsSpace(r[|r| - 1])
    ensures s != [] && !IsSpace(s[0]) ==> r != [] && r[0] == s[0]
    ensures forall i :: |r| <= i < |s| ==> IsSpace(s[i])
  {
    if s != [] && IsSpace(s[|s| - 1]) then StripRight(s[..|s| - 1]) else s
  }

  /** `s` is `r` with only whitespace before it (`a` characters) and after it. */
  predicate PaddedAt(r: string, s: string, a: int) {
    OccursAt(r, s, a)
    && (forall i :: 0 <= i < a ==> IsSpace(s[i]))
    && (forall i :: a + |r| <= i < |s| ==> IsSpace(s[i]))
  }

  /** `s.strip()`: what remains is a piece of `s` that neither starts nor ends with whitespace. */
  function Strip(s: string): (r: string)
    ensures r == [] || (!IsSpace(r[0]) && !IsSpace(r[|r| - 1]))
    ensures IsSubstring(r, s)
  {
    var l := StripLeft(s);
    var r := StripRight(l);
    assert OccursAt(r, s, |s| - |l|) by {
      assert s[|s| - |l|..|s| - |l| + |r|] == l[..|r|];
    }
    r
  }

  /** Stripping the left end, then the right end, leaves `s` less its whitespace padding. */
  lemma StripBothEnds(s: string)
    ensures PaddedAt(StripRight(StripLeft(s)), s, |s| - |StripLeft(s)|)
  {
    var l := StripLeft(s);
    var r := StripRight(l);
    PrefixOfSuffix(s, |s| - |l|, l, r);
  }

  /** A prefix `r` of the suffix `l` of `s` that starts at `a` occurs in `s` at `a`. */
  lemma PrefixOfSuffix(s: string, a: int, l: string, r: string)
    requires 0 <= a <= |s| && l == s[a..] && |r| <= |l| && r == l[..|r|]
    ensures OccursAt(r, s, a)
    ensures forall i :: a + |r| <= i < |s| ==> s[i] == l[i - a]
  {
    assert s[a..a + |r|] == r;
  }

  /** `strip` removes whitespace from the two ends and nothing else. */
  lemma StripRemovesOnlyPadding(s: string)
    ensures exists a :: PaddedAt(Strip(s), s, a)
  {
    StripBothEnds(s);
    assert PaddedAt(Strip(s), s, |s| - |StripLeft(s)|);
  }

  /** `sep.join(parts)` */
  function Join(parts: seq<string>, sep: string): string {
    if |parts| == 0 then ""
    else if |parts| == 1 then parts[0]
    else parts[0] + sep + Join(parts[1..], sep)
  }

  lemma {:induction false} JoinConcat(a: seq<string>, b: seq<string>, sep: string)
    requires a != [] && b != []
    ensures Join(a + b, sep) == Join(a, sep) + sep + Join(b, sep)
  {
    if |a| == 1 {
      assert (a + b)[1..] == b;
    } else {
      assert (a + b)[1..] == a[1..] + b;
      JoinConcat(a[1..], b, sep);
    }
  }

  /** Every joined part appears in the joined text. */
  lemma {:induction false} JoinContainsPart(parts: seq<string>, sep: string, i: nat)
    requires i < |parts|
    ensures IsSubstring(parts[i], Join(parts, sep))
  {
    var s := Join(parts, sep);
    if |parts| == 1 {
      assert OccursAt(parts[0], s, 0);
    } else if i == 0 {
      assert OccursAt(parts[0], s, 0);
    } else {
      JoinContainsPart(parts[1..], sep, i - 1);
      var t := Join(parts[1..], sep);
      var j :| 0 <= j <= |t| && OccursAt(parts[i], t, j);
      var off := |parts[0]| + |sep|;
      assert s[off + j..off + j + |parts[i]|] == t[j..j + |parts[i]|];
      assert OccursAt(parts[i], s, off + j);
    }
  }

  function DigitChar(d: nat): char
    requires d < 10
  {
    (48 + d) as char
  }

  /** `f"{n}"` for a non-negative integer. */
  function NatToString(n: nat): string {
    if n < 10 then [DigitChar(n)] else NatToString(n / 10) + [DigitChar(n % 10)]
  }

  /** Python's `<` on `str`: lexicographic by code point, a proper prefix first. */
  predicate LexLess(a: string, b: string) {
    if b == [] then false
    else if a == [] then true
    else if a[0] != b[0] then a[0] < b[0]
    else LexLess(a[1..], b[1..])
  }

  lemma {:induction false} LexTotal(a: string, b: string)
    ensures a == b || LexLess(a, b) || LexLess(b, a)
  {
    if a != [] && b != [] && a[0] == b[0] {
      LexTotal(a[1..], b[1..]);
      if a[1..] == b[1..] {
        assert a == [a[0]] + a[1..] && b == [b[0]] + b[1..];
      }
    }
  }

  lemma {:induction false} LexIrreflexive(a: string)
    ensures !LexLess(a, a)
  {
    if a != [] {
      LexIrreflexive(a[1..]);
    }
  }

  lemma {:induction false} LexTransitive(a: string, b: string, c: string)
    requires LexLess(a, b) && LexLess(b, c)
    ensures LexLess(a, c)
  {
    if a != [] && a[0] == b[0] && b[0] == c[0] {
      LexTransitive(a[1..], b[1..], c[1..]);
    }
  }
}
