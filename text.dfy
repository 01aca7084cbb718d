/**
 * The three string operations the service classifier uses: lower-casing
 * (`str.lower`, over ASCII), trimming (`str.strip`, over Python's whitespace
 * characters) and the substring test (`needle in haystack`).
 */
module Text {

  /** Lower-cases one character; only the ASCII letters 'A'..'Z' change. */
  function LowerChar(c: char): (r: char)
    ensures 'A' <= c <= 'Z' ==> 'a' <= r <= 'z' && r as int == c as int + 32
    ensures !('A' <= c <= 'Z') ==> r == c
  {
    if 'A' <= c <= 'Z' then (c as int + 32) as char else c
  }

  /** Upper-cases one character; only the ASCII letters 'a'..'z' change. */
  function UpperChar(c: char): (r: char)
    ensures 'a' <= c <= 'z' ==> 'A' <= r <= 'Z' && r as int == c as int - 32
    ensures !('a' <= c <= 'z') ==> r == c
  {
    if 'a' <= c <= 'z' then (c as int - 32) as char else c
  }

  /** `s.lower()`: every character lower-cased, in place. */
  function Lower(s: string): (r: string)
    ensures |r| == |s|
    ensures forall i :: 0 <= i < |s| ==> r[i] == LowerChar(s[i])
  {
    if s == [] then [] else [LowerChar(s[0])] + Lower(s[1..])
  }

  /** `s.upper()` over ASCII. */
  function Upper(s: string): (r: string)
    ensures |r| == |s|
    ensures forall i :: 0 <= i < |s| ==> r[i] == UpperChar(s[i])
  {
    if s == [] then [] else [UpperChar(s[0])] + Upper(s[1..])
  }

  /** Two strings that differ at most in the case of their letters. */
  predicate SameUpToCase(a: string, b: string) {
    |a| == |b| && forall i :: 0 <= i < |a| ==> LowerChar(a[i]) == LowerChar(b[i])
  }

  /** Strings that differ only in case have the same lower-case form. */
  lemma LowerOfSameUpToCase(a: string, b: string)
    requires SameUpToCase(a, b)
    ensures Lower(a) == Lower(b)
  {
    assert forall i :: 0 <= i < |a| ==> Lower(a)[i] == Lower(b)[i];
  }

  /** Upper-casing, and lower-casing, change a string only up to case. */
  lemma CaseChangesAreSameUpToCase(s: string)
    ensures SameUpToCase(Upper(s), s)
    ensures SameUpToCase(Lower(s), s)
  {
    forall i | 0 <= i < |s|
      ensures LowerChar(Upper(s)[i]) == LowerChar(s[i])
      ensures LowerChar(Lower(s)[i]) == LowerChar(s[i])
    {
      var c := s[i];
      if 'a' <= c <= 'z' {
        assert (c as int - 32) as char as int + 32 == c as int;
      }
    }
  }

  /** The characters for which Python's `str.isspace` holds, and which `str.strip` removes. */
  predicate IsSpace(c: char)
    ensures IsSpace(c) ==> !('a' <= c <= 'z' || 'A' <= c <= 'Z' || '0' <= c <= '9')
  {
    ('\t' <= c <= '\r') || ('\U{1C}' <= c <= ' ') || c == '\U{85}' || c == '\U{A0}'
    || c == '\U{1680}' || ('\U{2000}' <= c <= '\U{200A}') || c == '\U{2028}' || c == '\U{2029}'
    || c == '\U{202F}' || c == '\U{205F}' || c == '\U{3000}'
  }

  /** The number of whitespace characters at the start of `s`. */
  function LeadingSpaces(s: string): (n: nat)
    ensures n <= |s|
    ensures forall i :: 0 <= i < n ==> IsSpace(s[i])
    ensures n < |s| ==> !IsSpace(s[n])
  {
    if s != [] && IsSpace(s[0]) then 1 + LeadingSpaces(s[1..]) else 0
  }

  /** The number of whitespace characters at the end of `s`. */
  function TrailingSpaces(s: string): (n: nat)
    ensures n <= |s|
    ensures forall i :: |s| - n <= i < |s| ==> IsSpace(s[i])
    ensures n < |s| ==> !IsSpace(s[|s| - n - 1])
  {
    if s != [] && IsSpace(s[|s| - 1]) then 1 + TrailingSpaces(s[..|s| - 1]) else 0
  }

  /** `s.strip()`: the leading whitespace removed, then the trailing whitespace. */
  function Strip(s: string): (r: string)
    ensures |r| <= |s|
    ensures r != [] ==> !IsSpace(r[0]) && !IsSpace(r[|r| - 1])
  {
    var m := LeadingSpaces(s);
    var rest := s[m..];
    s[m..m + (|rest| - TrailingSpaces(rest))]
  }

  /** `needle in haystack`, searched from the front of the haystack. */
  predicate Contains(haystack: string, needle: string)
  {
    |needle| <= |haystack| &&
    (haystack[..|needle|] == needle || (|haystack| > 0 && Contains(haystack[1..], needle)))
  }

  /** Every string contains itself. */
  lemma ContainsItself(s: string)
    ensures Contains(s, s)
  {
    assert s[..|s|] == s;
  }

  /** `needle` is found in `haystack` starting at index `k`. */
  predicate OccursAt(haystack: string, needle: string, k: nat) {
    k + |needle| <= |haystack| && haystack[k..k + |needle|] == needle
  }

  /** When the search succeeds, the needle occurs at some position: this one. */
  lemma {:induction false} ContainsWitness(haystack: string, needle: string) returns (k: nat)
    requires Contains(haystack, needle)
    ensures OccursAt(haystack, needle, k)
  {
    if haystack[..|needle|] == needle {
      k := 0;
    } else {
      var tail := haystack[1..];
      var j := ContainsWitness(tail, needle);
      k := j + 1;
      assert haystack[k..k + |needle|] == tail[j..j + |needle|];
    }
  }

  /** When the needle occurs at some position, the search succeeds. */
  lemma {:induction false} OccursContains(haystack: string, needle: string, k: nat)
    requires OccursAt(haystack, needle, k)
    ensures Contains(haystack, needle)
  {
    if k > 0 {
      var tail := haystack[1..];
      assert tail[k - 1..k - 1 + |needle|] == haystack[k..k + |needle|];
      OccursContains(tail, needle, k - 1);
    }
  }

  /** The search agrees with the definition of a substring: some position where it occurs. */
  lemma ContainsIffOccurs(haystack: string, needle: string)
    ensures Contains(haystack, needle) <==> exists k: nat :: OccursAt(haystack, needle, k)
  {
    if Contains(haystack, needle) {
      var k := ContainsWitness(haystack, needle);
    }
    if k: nat :| OccursAt(haystack, needle, k) {
      OccursContains(haystack, needle, k);
    }
  }

  /** An occurrence inside a window `s[m..m + |r|]` is an occurrence in `s`, shifted by `m`. */
  lemma OccursInWindow(s: string, m: nat, r: string, needle: string, k: nat)
    requires m + |r| <= |s| && r == s[m..m + |r|]
    requires OccursAt(r, needle, k)
    ensures OccursAt(s, needle, m + k)
  {
    forall j | 0 <= j < |needle| ensures s[m + k + j] == needle[j] {
      assert r[k..k + |needle|][j] == r[k + j];
    }
    assert s[m + k..m + k + |needle|] == needle;
  }

  /** Every character of `t` is whitespace. */
  predicate AllSpace(t: string) {
    forall i :: 0 <= i < |t| ==> IsSpace(t[i])
  }

  /**
   * An occurrence in `s` of a needle that neither starts nor ends with
   * whitespace lies inside any window of `s` that has only whitespace around it.
   */
  lemma OccursInsideWindow(s: string, m: nat, r: string, needle: string, k: nat)
    requires m + |r| <= |s| && r == s[m..m + |r|]
    requires AllSpace(s[..m]) && AllSpace(s[m + |r|..])
    requires needle != [] && !IsSpace(needle[0]) && !IsSpace(needle[|needle| - 1])
    requires OccursAt(s, needle, k)
    ensures m <= k && OccursAt(r, needle, k - m)
  {
    var last := k + |needle| - 1;
    assert s[k] == s[k..k + |needle|][0];
    assert s[last] == s[k..k + |needle|][|needle| - 1];
    forall j | 0 <= j < |needle| ensures r[k - m + j] == needle[j] {
      assert s[k..k + |needle|][j] == s[k + j];
    }
    assert r[k - m..k - m + |needle|] == needle;
  }

  /** The first `n` characters of `s` are whitespace, stated as a slice. */
  lemma PrefixAllSpace(s: string, n: nat)
    requires n <= |s|
    requires forall i :: 0 <= i < n ==> IsSpace(s[i])
    ensures AllSpace(s[..n])
  {
    var before := s[..n];
    forall i | 0 <= i < |before| ensures IsSpace(before[i]) {
      assert before[i] == s[i];
    }
  }

  /** The last `n` characters of `s` are whitespace, stated as a slice. */
  lemma SuffixAllSpace(s: string, n: nat)
    requires n <= |s|
    requires forall i :: |s| - n <= i < |s| ==> IsSpace(s[i])
    ensures AllSpace(s[|s| - n..])
  {
    var after := s[|s| - n..];
    forall i | 0 <= i < |after| ensures IsSpace(after[i]) {
      assert after[i] == s[|s| - n + i];
    }
  }

  /** The characters `LeadingSpaces` counts are all whitespace. */
  lemma LeadingAreSpaces(s: string)
    ensures AllSpace(s[..LeadingSpaces(s)])
  {
    PrefixAllSpace(s, LeadingSpaces(s));
  }

  /** The characters `TrailingSpaces` counts are all whitespace. */
  lemma TrailingAreSpaces(s: string)
    ensures AllSpace(s[|s| - TrailingSpaces(s)..])
  {
    SuffixAllSpace(s, TrailingSpaces(s));
  }

  /** `Strip(s)` is a window of `s` with only whitespace before and after it. */
  lemma StripIsWindow(s: string)
    ensures LeadingSpaces(s) + |Strip(s)| <= |s|
    ensures Strip(s) == s[LeadingSpaces(s)..LeadingSpaces(s) + |Strip(s)|]
    ensures AllSpace(s[..LeadingSpaces(s)])
    ensures AllSpace(s[LeadingSpaces(s) + |Strip(s)|..])
  {
    LeadingAreSpaces(s);
    StripTrailingBorder(s);
  }

  /** Only whitespace follows `Strip(s)` in `s`, stated pointwise on `s` rather than on the trimmed rest. */
  lemma StripTrailingBorder(s: string)
    ensures AllSpace(s[LeadingSpaces(s) + |Strip(s)|..])
  {
    var m := LeadingSpaces(s);
    var rest := s[m..];
    var t := TrailingSpaces(rest);
    assert |Strip(s)| == |rest| - t;
    forall i | |s| - t <= i < |s| ensures IsSpace(s[i]) {
      assert s[i] == rest[i - m];
    }
    SuffixAllSpace(s, t);
  }

  /** A needle the window contains is contained in the whole string. */
  lemma WindowToWhole(s: string, m: nat, r: string, needle: string)
    requires m + |r| <= |s| && r == s[m..m + |r|]
    requires Contains(r, needle)
    ensures Contains(s, needle)
  {
    var k := ContainsWitness(r, needle);
    OccursInWindow(s, m, r, needle, k);
    OccursContains(s, needle, m + k);
  }

  /**
   * A needle that neither starts nor ends with whitespace and that the whole
   * string contains is contained in a window with only whitespace around it.
   */
  lemma WholeToWindow(s: string, m: nat, r: string, needle: string)
    requires m + |r| <= |s| && r == s[m..m + |r|]
    requires AllSpace(s[..m]) && AllSpace(s[m + |r|..])
    requires needle != [] && !IsSpace(needle[0]) && !IsSpace(needle[|needle| - 1])
    requires Contains(s, needle)
    ensures Contains(r, needle)
  {
    var k := ContainsWitness(s, needle);
    OccursInsideWindowContains(s, m, r, needle, k);
  }

  /** The window contains a needle that occurs in the whole string, as `OccursInsideWindow` places it. */
  lemma OccursInsideWindowContains(s: string, m: nat, r: string, needle: string, k: nat)
    requires m + |r| <= |s| && r == s[m..m + |r|]
    requires AllSpace(s[..m]) && AllSpace(s[m + |r|..])
    requires needle != [] && !IsSpace(needle[0]) && !IsSpace(needle[|needle| - 1])
    requires OccursAt(s, needle, k)
    ensures Contains(r, needle)
  {
    OccursInsideWindow(s, m, r, needle, k);
    OccursContains(r, needle, k - m);
  }

  /**
   * A window of `s` with only whitespace around it contains a needle that
   * neither starts nor ends with whitespace exactly when `s` does.
   */
  lemma WindowKeepsContains(s: string, m: nat, r: string, needle: string)
    requires m + |r| <= |s| && r == s[m..m + |r|]
    requires AllSpace(s[..m]) && AllSpace(s[m + |r|..])
    requires needle != [] && !IsSpace(needle[0]) && !IsSpace(needle[|needle| - 1])
    ensures Contains(r, needle) <==> Contains(s, needle)
  {
    if Contains(r, needle) {
      WindowToWhole(s, m, r, needle);
    }
    if Contains(s, needle) {
      WholeToWindow(s, m, r, needle);
    }
  }

  /**
   * Dropping whitespace from both ends of the haystack does not change
   * whether it contains a needle that neither starts nor ends with whitespace.
   */
  lemma StripKeepsContains(s: string, needle: string)
    requires needle != [] && !IsSpace(needle[0]) && !IsSpace(needle[|needle| - 1])
    ensures Contains(Strip(s), needle) <==> Contains(s, needle)
  {
    StripIsWindow(s);
    WindowKeepsContains(s, LeadingSpaces(s), Strip(s), needle);
  }
}
