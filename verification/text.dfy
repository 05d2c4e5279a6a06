/**
 * The string helpers the orchestrator relies on: decimal rendering of an
 * index (Utils::ToString), ASCII lower-casing (Utils::ToLowerCase), the
 * last-occurrence search of std::string::rfind, popping a trailing
 * character, and the first field of a separated string
 * (Utils::GetMultipleStrings followed by comps[0]).
 */
module Text {
  import opened Wrappers

  predicate IsDigit(c: char) {
    '0' <= c <= '9'
  }

  predicate AllDigits(s: string) {
    forall k :: 0 <= k < |s| ==> IsDigit(s[k])
  }

  function DigitChar(d: nat): (c: char)
    requires d < 10
    ensures IsDigit(c)
  {
    ('0' as int + d) as char
  }

  /** The value of a string of decimal digits. */
  function DecValue(s: string): nat
    requires AllDigits(s)
  {
    if s == [] then 0 else 10 * DecValue(s[..|s| - 1]) + (s[|s| - 1] as int - '0' as int)
  }

  /** Decimal rendering of a size_t, without leading zeros. */
  function Dec(n: nat): (s: string)
    ensures |s| >= 1 && AllDigits(s)
    ensures n > 0 ==> s[0] != '0'
    ensures |s| == 1 <==> n < 10
  {
    if n < 10 then [DigitChar(n)] else Dec(n / 10) + [DigitChar(n % 10)]
  }

  /** Parsing the rendering gives the number back. */
  lemma {:induction false} DecRoundTrip(n: nat)
    ensures DecValue(Dec(n)) == n
  {
    if n >= 10 {
      DecRoundTrip(n / 10);
      var s := Dec(n);
      assert s[..|s| - 1] == Dec(n / 10);
    }
  }

  /** Distinct indices have distinct renderings. */
  lemma DecInjective(m: nat, n: nat)
    ensures Dec(m) == Dec(n) ==> m == n
  {
    if Dec(m) == Dec(n) {
      DecRoundTrip(m);
      DecRoundTrip(n);
    }
  }

  function LowerChar(c: char): char {
    if 'A' <= c <= 'Z' then (c as int - 'A' as int + 'a' as int) as char else c
  }

  /** ASCII lower-casing, character by character. */
  function Lower(s: string): (r: string)
    ensures |r| == |s|
  {
    if s == [] then [] else Lower(s[..|s| - 1]) + [LowerChar(s[|s| - 1])]
  }

  /** Lower-casing maps every character on its own and leaves no upper-case letter. */
  lemma {:induction false} LowerChars(s: string)
    ensures forall k :: 0 <= k < |s| ==> Lower(s)[k] == LowerChar(s[k])
    ensures forall k :: 0 <= k < |s| ==> !('A' <= Lower(s)[k] <= 'Z')
  {
    if s != [] {
      LowerChars(s[..|s| - 1]);
    }
  }

  /** `pat` occurs in `s` starting at position `p`. */
  predicate OccursAt(s: string, pat: string, p: nat) {
    p + |pat| <= |s| && s[p..p + |pat|] == pat
  }

  /** std::string::rfind: the last position at which `pat` occurs, if any. */
  function RFind(s: string, pat: string): (r: Option<nat>)
    ensures r.Some? ==> r.value + |pat| <= |s|
    decreases |s|
  {
    if |s| < |pat| then None
    else if s[|s| - |pat|..] == pat then Some(|s| - |pat|)
    else RFind(s[..|s| - 1], pat)
  }

  /** RFind finds an occurrence with none after it, and finds nothing only when there is none. */
  lemma {:induction false} RFindLast(s: string, pat: string)
    ensures RFind(s, pat).Some? ==> OccursAt(s, pat, RFind(s, pat).value)
    ensures RFind(s, pat).Some? ==> forall q: nat :: RFind(s, pat).value < q ==> !OccursAt(s, pat, q)
    ensures RFind(s, pat).None? ==> forall q: nat :: !OccursAt(s, pat, q)
    decreases |s|
  {
    if |s| >= |pat| && s[|s| - |pat|..] != pat {
      var t := s[..|s| - 1];
      RFindLast(t, pat);
      LastWindowMissed(s, pat);
    }
  }

  /** When the last window of `s` is not `pat`, `s` and `s` minus its last character have the same occurrences. */
  lemma LastWindowMissed(s: string, pat: string)
    requires |s| >= |pat| && s[|s| - |pat|..] != pat
    ensures RFind(s, pat) == RFind(s[..|s| - 1], pat)
    ensures forall q: nat :: OccursAt(s, pat, q) <==> OccursAt(s[..|s| - 1], pat, q)
  {
    forall q: nat
      ensures OccursAt(s, pat, q) <==> OccursAt(s[..|s| - 1], pat, q)
    {
      LastWindowMissedAt(s, pat, q);
    }
  }

  lemma LastWindowMissedAt(s: string, pat: string, q: nat)
    requires |s| >= |pat| && s[|s| - |pat|..] != pat
    ensures OccursAt(s, pat, q) <==> OccursAt(s[..|s| - 1], pat, q)
  {
    if q + |pat| < |s| {
      OccursInPrefixAt(s, pat, q);
    } else if q + |pat| == |s| {
      assert s[q..q + |pat|] == s[|s| - |pat|..];
    }
  }

  lemma OccursInPrefixAt(s: string, pat: string, q: nat)
    requires q + |pat| < |s|
    ensures OccursAt(s[..|s| - 1], pat, q) <==> OccursAt(s, pat, q)
  {
    assert s[..|s| - 1][q..q + |pat|] == s[q..q + |pat|];
  }

  /** The string with every trailing `c` popped off. */
  function TrimTrailing(s: string, c: char): (r: string)
    ensures |r| <= |s| && r == s[..|r|]
    ensures r == [] || r[|r| - 1] != c
    ensures forall k :: |r| <= k < |s| ==> s[k] == c
  {
    if s != [] && s[|s| - 1] == c then TrimTrailing(s[..|s| - 1], c) else s
  }

  /** The first `sep`-separated field of `s`: everything before the first `sep`. */
  function FirstField(s: string, sep: char): (r: string)
    ensures |r| <= |s| && r == s[..|r|]
    ensures forall k :: 0 <= k < |r| ==> r[k] != sep
    ensures |r| < |s| ==> s[|r|] == sep
  {
    if s == [] || s[0] == sep then [] else [s[0]] + FirstField(s[1..], sep)
  }
}
