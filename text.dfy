/** The few operations on Python `str` values that the pipeline and the ledger use. */
module Text {

  /** Python's `s.endswith(suffix)`. */
  predicate EndsWith(s: string, suffix: string) {
    |suffix| <= |s| && s[|s| - |suffix|..] == suffix
  }

  /** Python's `s.startswith(prefix)`. */
  predicate StartsWith(s: string, prefix: string) {
    |prefix| <= |s| && s[..|prefix|] == prefix
  }

  /** Python's `s.replace(c, d)` for one-character arguments. */
  function ReplaceChar(s: string, c: char, d: char): string {
    seq(|s|, i requires 0 <= i < |s| => if s[i] == c then d else s[i])
  }

  /** How many leading characters of `s` belong to `cs`. */
  function LeadCount(s: string, cs: set<char>): (n: nat)
    ensures n <= |s|
    ensures forall i :: 0 <= i < n ==> s[i] in cs
    ensures n < |s| ==> s[n] !in cs
  {
    if s != [] && s[0] in cs then 1 + LeadCount(s[1..], cs) else 0
  }

  /** How many trailing characters of `s` belong to `cs`. */
  function TrailCount(s: string, cs: set<char>): (n: nat)
    ensures n <= |s|
    ensures forall i :: |s| - n <= i < |s| ==> s[i] in cs
    ensures n < |s| ==> s[|s| - n - 1] !in cs
  {
    if s != [] && s[|s| - 1] in cs then 1 + TrailCount(s[..|s| - 1], cs) else 0
  }

  /** Python's `s.lstrip(chars)`. */
  function LStrip(s: string, cs: set<char>): string {
    s[LeadCount(s, cs)..]
  }

  /** Python's `s.rstrip(chars)`. */
  function RStrip(s: string, cs: set<char>): string {
    s[..|s| - TrailCount(s, cs)]
  }

  /** Python's `s.strip(chars)`. */
  function Strip(s: string, cs: set<char>): string {
    RStrip(LStrip(s, cs), cs)
  }

  /** What `Strip` leaves is the slice `s[lo..hi]`: it neither starts nor ends with a character of
      `cs`, and everything cut away on either side is made of such characters. */
  lemma StripIsInnerSlice(s: string, cs: set<char>) returns (lo: nat, hi: nat)
    ensures lo <= hi <= |s| && Strip(s, cs) == s[lo..hi]
    ensures forall i :: 0 <= i < lo ==> s[i] in cs
    ensures forall i :: hi <= i < |s| ==> s[i] in cs
    ensures lo < hi ==> s[lo] !in cs && s[hi - 1] !in cs
  {
    var l := LStrip(s, cs);
    lo := LeadCount(s, cs);
    hi := |s| - TrailCount(l, cs);
    assert l[..|l| - TrailCount(l, cs)] == s[lo..hi];
    forall i | hi <= i < |s|
      ensures s[i] in cs
    {
      assert s[i] == l[i - lo];
    }
    if lo < hi {
      assert s[hi - 1] == l[|l| - TrailCount(l, cs) - 1];
    }
  }

  /** A string that neither starts nor ends with a character of `cs` is left alone by `Strip`. */
  lemma StripFixpoint(s: string, cs: set<char>)
    requires s != [] ==> s[0] !in cs && s[|s| - 1] !in cs
    ensures Strip(s, cs) == s
  {
  }

  /** Stripping twice is stripping once. */
  lemma StripIdempotent(s: string, cs: set<char>)
    ensures Strip(Strip(s, cs), cs) == Strip(s, cs)
  {
    var lo, hi := StripIsInnerSlice(s, cs);
    StripFixpoint(Strip(s, cs), cs);
  }

  /** The decimal digit for `d`. */
  function Digit(d: nat): (c: char)
    requires d < 10
    ensures '0' <= c <= '9'
  {
    (48 + d) as char
  }

  /** Python's `str(n)` for a non-negative integer. */
  function NatToString(n: nat): (s: string)
    ensures |s| > 0
    ensures forall i :: 0 <= i < |s| ==> '0' <= s[i] <= '9'
    ensures n < 10 <==> |s| == 1
  {
    if n < 10 then [Digit(n)] else NatToString(n / 10) + [Digit(n % 10)]
  }

  /** Different numbers print differently. */
  lemma {:induction false} NatToStringInjective(a: nat, b: nat)
    requires NatToString(a) == NatToString(b)
    ensures a == b
  {
    var sa, sb := NatToString(a), NatToString(b);
    if a >= 10 && b >= 10 {
      assert sa[..|sa| - 1] == NatToString(a / 10);
      assert sb[..|sb| - 1] == NatToString(b / 10);
      NatToStringInjective(a / 10, b / 10);
      assert Digit(a % 10) == sa[|sa| - 1] == sb[|sb| - 1] == Digit(b % 10);
    } else {
      assert sa[0] == sb[0];
    }
  }

  /** Python's `s.split(sep)[-1]`: the text after the last `sep`, or all of `s` when it has none. */
  function LastField(s: string, sep: char): (r: string)
    ensures sep !in r
    ensures |r| <= |s| && r == s[|s| - |r|..]
    ensures |r| < |s| ==> s[|s| - |r| - 1] == sep
  {
    if s == [] then []
    else if s[|s| - 1] == sep then []
    else
      var init := s[..|s| - 1];
      var r' := LastField(init, sep);
      assert init[|init| - |r'|..] + [s[|s| - 1]] == s[|s| - |r'| - 1..];
      r' + [s[|s| - 1]]
  }
}
