/**
 * Content hashes as they appear in git's diff headers: runs of hexadecimal
 * digits, where a hash made only of zeros means "no content on this side".
 */
module Hashes {
  import opened Wrappers

  predicate IsHexDigit(c: char)
  {
    ('0' <= c <= '9') || ('a' <= c <= 'f') || ('A' <= c <= 'F')
  }

  /** True if every character of `s` is a hexadecimal digit (the class `[0-9A-Fa-f]`). */
  predicate IsHex(s: string)
  {
    forall i :: 0 <= i < |s| ==> IsHexDigit(s[i])
  }

  /** True if every character of `s` is `'0'`; the empty string is all zeros. */
  predicate AllZeros(s: string)
  {
    forall i :: 0 <= i < |s| ==> s[i] == '0'
  }

  /** The length of the longest prefix of `s` made of hexadecimal digits (a greedy `[0-9A-Fa-f]*`). */
  function HexRunLength(s: string): (n: nat)
    ensures n <= |s|
    ensures IsHex(s[..n])
    ensures n < |s| ==> !IsHexDigit(s[n])
  {
    if |s| > 0 && IsHexDigit(s[0]) then
      var k := HexRunLength(s[1..]);
      assert s[..k + 1] == [s[0]] + s[1..][..k];
      k + 1
    else 0
  }

  /**
   * The regular expression `^0*$` applied to a single-line string: consume
   * zeros one at a time and succeed at the end of the string.
   */
  predicate MatchesZeroRun(s: string)
    decreases |s|
  {
    |s| == 0 || (s[0] == '0' && MatchesZeroRun(s[1..]))
  }

  /** The recogniser accepts exactly the all-zero strings. */
  lemma {:induction false} MatchesZeroRunIsAllZeros(s: string)
    ensures MatchesZeroRun(s) <==> AllZeros(s)
    decreases |s|
  {
    if |s| > 0 {
      MatchesZeroRunIsAllZeros(s[1..]);
      assert AllZeros(s) <==> s[0] == '0' && AllZeros(s[1..]) by {
        if s[0] == '0' && AllZeros(s[1..]) {
          forall i | 0 <= i < |s| ensures s[i] == '0' {
            if i > 0 { assert s[i] == s[1..][i - 1]; }
          }
        }
      }
    }
  }

  /**
   * The hash the diff record keeps for one side: `nil` stays `nil`, a hash of
   * zeros only (git's marker for a missing side) becomes `nil`, anything else
   * is kept as given.
   */
  function NormalizeSha(sha: Option<string>): (r: Option<string>)
    ensures r.None? <==> sha.None? || AllZeros(sha.value)
    ensures r.Some? ==> r == sha && !AllZeros(r.value)
  {
    match sha
    case None => None
    case Some(h) =>
      MatchesZeroRunIsAllZeros(h);
      if MatchesZeroRun(h) then None else sha
  }

  /** Normalising twice is the same as normalising once. */
  lemma NormalizeShaIdempotent(sha: Option<string>)
    ensures NormalizeSha(NormalizeSha(sha)) == NormalizeSha(sha)
  {
  }

  /** A hex prefix adds its length to the hex run of the text after it. */
  lemma {:induction false} HexRunOfHexPrefix(h: string, rest: string)
    requires IsHex(h)
    ensures HexRunLength(h + rest) == |h| + HexRunLength(rest)
    decreases |h|
  {
    if |h| > 0 {
      assert (h + rest)[0] == h[0];
      assert (h + rest)[1..] == h[1..] + rest;
      HexRunOfHexPrefix(h[1..], rest);
    } else {
      assert h + rest == rest;
    }
  }
}
