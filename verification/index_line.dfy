/**
 * The extended diff header line `index <hash>..<hash>[ <mode>]`, read with the
 * regular expression `^index ([0-9A-Fa-f]+)\.\.([0-9A-Fa-f]+) ?(.+)?$`
 * written out as a small deterministic recogniser.
 */
module IndexLine {
  import opened Wrappers
  import opened Hashes
  import opened Lines

  /** The three captures of the match; all three are `None` when the line does not match. */
  datatype IndexHeader = IndexHeader(aSha: Option<string>, bSha: Option<string>, bMode: Option<string>)

  const NoMatch := IndexHeader(None, None, None)

  /** The text a mode capture covers: nothing when the group did not participate. */
  function ModeText(mode: Option<string>): string
  {
    match mode
    case None => ""
    case Some(m) => m
  }

  /** What follows the second hash: the optional space and the mode text. */
  function Rest(spaced: bool, mode: Option<string>): string
  {
    (if spaced then " " else "") + ModeText(mode)
  }

  /**
   * Reference definition of a successful match of the text after `index `
   * with the given captures, under the regular expression's leftmost, greedy
   * reading: the text is `h1`, `..`, `h2`, an optional space (`spaced`) and
   * the mode text in turn, where both hashes are non-empty hex runs, the second hash
   * is not followed by another hex digit (greedy `+`), a space right after it
   * is taken by ` ?` (greedy `?`), and a mode capture is never empty (`.+`).
   */
  predicate HashesCapture(s: string, h1: string, h2: string, spaced: bool, mode: Option<string>)
  {
    var rest := Rest(spaced, mode);
    && |h1| > 0 && IsHex(h1)
    && |h2| > 0 && IsHex(h2)
    && s == h1 + (".." + (h2 + rest))
    && (|rest| > 0 ==> !IsHexDigit(rest[0]))
    && (!spaced ==> !StartsWith(ModeText(mode), ' '))
    && (mode.Some? ==> |mode.value| > 0)
  }

  /** A match of the whole line: the literal `index ` followed by a match of the rest. */
  predicate Captures(line: string, h1: string, h2: string, spaced: bool, mode: Option<string>)
  {
    |line| >= 6 && line[..6] == "index " && HashesCapture(line[6..], h1, h2, spaced, mode)
  }

  /** The ` ?(.+)?` tail: an optional space, then the non-empty rest as the mode, if any. */
  function ModeCapture(u: string): (mode: Option<string>)
    ensures u == Rest(StartsWith(u, ' '), mode)
    ensures mode.Some? ==> |mode.value| > 0
    ensures !StartsWith(u, ' ') ==> !StartsWith(ModeText(mode), ' ')
  {
    var spaced := StartsWith(u, ' ');
    var m := if spaced then u[1..] else u;
    assert spaced ==> u == [u[0]] + u[1..];
    if |m| == 0 then None else Some(m)
  }

  /** The part of the match after `index `: two hex runs around `..`, then the mode tail. */
  function ParseHashes(s: string): (r: IndexHeader)
    ensures r.aSha.None? ==> r == NoMatch
    ensures r.aSha.Some? <==> r.bSha.Some?
    ensures r.aSha.Some? ==>
              HashesCapture(s, r.aSha.value, r.bSha.value, false, r.bMode)
              || HashesCapture(s, r.aSha.value, r.bSha.value, true, r.bMode)
  {
    var n1 := HexRunLength(s);
    if n1 == 0 || |s| < n1 + 2 || s[n1..n1 + 2] != ".." then NoMatch
    else
      var t := s[n1 + 2..];
      var n2 := HexRunLength(t);
      if n2 == 0 then NoMatch
      else
        var u := t[n2..];
        assert t == t[..n2] + u;
        assert s == s[..n1] + s[n1..n1 + 2] + t;
        IndexHeader(Some(s[..n1]), Some(t[..n2]), ModeCapture(u))
  }

  /**
   * Matches the header line. The line is one element of the diff text split at
   * line breaks, so it holds no line break. A line that does not match yields
   * three `None`s and no error.
   */
  function ParseIndexLine(line: string): (r: IndexHeader)
    requires '\n' !in line
    ensures r.aSha.None? ==> r == NoMatch
    ensures r.aSha.Some? <==> r.bSha.Some?
    ensures r.aSha.Some? ==>
              Captures(line, r.aSha.value, r.bSha.value, false, r.bMode)
              || Captures(line, r.aSha.value, r.bSha.value, true, r.bMode)
  {
    if |line| < 6 || line[..6] != "index " then NoMatch
    else ParseHashes(line[6..])
  }

  /** The header line git writes for two hashes and an optional mode. */
  function FormatIndexLine(h1: string, h2: string, mode: Option<string>): string
  {
    "index " + (h1 + (".." + (h2 + Rest(mode.Some?, mode))))
  }

  /** The mode tail reads back the mode it was built from. */
  lemma ModeCaptureOfRest(spaced: bool, mode: Option<string>)
    requires !spaced ==> !StartsWith(ModeText(mode), ' ')
    requires mode.Some? ==> |mode.value| > 0
    ensures ModeCapture(Rest(spaced, mode)) == mode
  {
    var u := Rest(spaced, mode);
    if spaced {
      assert u[1..] == ModeText(mode);
    } else {
      assert u == ModeText(mode);
    }
  }

  /** The two pieces of a concatenation are recovered by slicing at the seam. */
  lemma SplitAt(x: string, a: string, b: string)
    requires x == a + b
    ensures x[..|a|] == a && x[|a|..] == b
  {
  }

  /** A hex run followed by text that does not begin with a hex digit is measured exactly. */
  lemma HexRunBeforeStop(h: string, rest: string)
    requires IsHex(h)
    requires |rest| > 0 ==> !IsHexDigit(rest[0])
    ensures HexRunLength(h + rest) == |h|
  {
    HexRunOfHexPrefix(h, rest);
  }

  /** Whenever the captures describe a match of the text after `index `, the parser returns exactly them. */
  lemma ParseHashesComplete(s: string, h1: string, h2: string, spaced: bool, mode: Option<string>)
    requires HashesCapture(s, h1, h2, spaced, mode)
    ensures ParseHashes(s) == IndexHeader(Some(h1), Some(h2), mode)
  {
    var rest := Rest(spaced, mode);
    var t := h2 + rest;
    var dots := ".." + t;
    HexRunBeforeStop(h1, dots);
    SplitAt(s, h1, dots);
    SplitAt(dots, "..", t);
    assert s[|h1|..|h1| + 2] == "..";
    assert s[|h1| + 2..] == t;
    HexRunBeforeStop(h2, rest);
    SplitAt(t, h2, rest);
    ModeCaptureOfRest(spaced, mode);
  }

  /** Whenever the captures describe a match of the line, the parser returns exactly them. */
  lemma ParseIndexLineComplete(line: string, h1: string, h2: string, spaced: bool, mode: Option<string>)
    requires '\n' !in line
    requires Captures(line, h1, h2, spaced, mode)
    ensures ParseIndexLine(line) == IndexHeader(Some(h1), Some(h2), mode)
  {
    ParseHashesComplete(line[6..], h1, h2, spaced, mode);
  }

  /** A hex run holds no line break. */
  lemma HexHasNoBreak(h: string)
    requires IsHex(h)
    ensures '\n' !in h
  {
  }

  /** Concatenating texts without line breaks gives a text without line breaks. */
  lemma NoBreakConcat(a: string, b: string)
    requires '\n' !in a && '\n' !in b
    ensures '\n' !in a + b
  {
    forall i | 0 <= i < |a + b| ensures (a + b)[i] != '\n' {
      if i < |a| {
        assert (a + b)[i] == a[i];
      } else {
        assert (a + b)[i] == b[i - |a|];
      }
    }
  }

  /** A line assembled from hex hashes and a break-free remainder holds no line break. */
  lemma AssembledLineHasNoBreak(h1: string, h2: string, rest: string)
    requires IsHex(h1) && IsHex(h2) && '\n' !in rest
    ensures '\n' !in "index " + (h1 + (".." + (h2 + rest)))
  {
    HexHasNoBreak(h1);
    HexHasNoBreak(h2);
    NoBreakConcat(h2, rest);
    NoBreakConcat("..", h2 + rest);
    NoBreakConcat(h1, ".." + (h2 + rest));
    NoBreakConcat("index ", h1 + (".." + (h2 + rest)));
  }

  /**
   * A line of the form `index h1..h2` followed by anything matches: the first
   * capture is `h1` and the second begins with `h2`.
   */
  lemma ParseIndexLineMatches(h1: string, h2: string, tail: string)
    requires |h1| > 0 && IsHex(h1) && |h2| > 0 && IsHex(h2)
    requires '\n' !in tail
    ensures '\n' !in "index " + (h1 + (".." + (h2 + tail)))
    ensures var r := ParseIndexLine("index " + (h1 + (".." + (h2 + tail))));
            r.aSha == Some(h1) && r.bSha.Some? && |h2| <= |r.bSha.value| && r.bSha.value[..|h2|] == h2
  {
    AssembledLineHasNoBreak(h1, h2, tail);
    var t := h2 + tail;
    var dots := ".." + t;
    var s := h1 + dots;
    SplitAt("index " + s, "index ", s);
    HexRunBeforeStop(h1, dots);
    SplitAt(s, h1, dots);
    SplitAt(dots, "..", t);
    assert s[|h1|..|h1| + 2] == "..";
    assert s[|h1| + 2..] == t;
    HexRunOfHexPrefix(h2, tail);
    assert t[..HexRunLength(t)][..|h2|] == h2;
  }

  /** Parsing the line git writes gives back the two hashes and the mode. */
  lemma ParseFormatIndexLine(h1: string, h2: string, mode: Option<string>)
    requires |h1| > 0 && IsHex(h1) && |h2| > 0 && IsHex(h2)
    requires mode.Some? ==> |mode.value| > 0 && '\n' !in mode.value
    ensures '\n' !in FormatIndexLine(h1, h2, mode)
    ensures ParseIndexLine(FormatIndexLine(h1, h2, mode)) == IndexHeader(Some(h1), Some(h2), mode)
  {
    var rest := Rest(mode.Some?, mode);
    if mode.Some? {
      NoBreakConcat(" ", mode.value);
    }
    AssembledLineHasNoBreak(h1, h2, rest);
    var s := h1 + (".." + (h2 + rest));
    SplitAt("index " + s, "index ", s);
    assert !IsHexDigit(' ');
    assert HashesCapture(s, h1, h2, mode.Some?, mode);
    ParseHashesComplete(s, h1, h2, mode.Some?, mode);
  }
}
