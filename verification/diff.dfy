/**
 * The diff record of one file: both sides' hashes and blob handles, modes,
 * the new/deleted flags, the unified-diff body, and the insertion and
 * deletion counts derived from that body.
 */
module GritDiff {
  import opened Wrappers
  import opened Hashes
  import opened Lines
  import opened IndexLine

  /** A handle on a blob in the object store, known only by its hash. */
  datatype Blob = Blob(id: string)

  datatype Diff = Diff(
    aPath: string,
    bPath: string,
    aSha: Option<string>,
    bSha: Option<string>,
    aMode: Option<string>,
    bMode: Option<string>,
    newFile: bool,
    deletedFile: bool,
    diff: Option<string>,
    aBlob: Option<Blob>,
    bBlob: Option<Blob>)

  /** The blob handle for a normalised hash: present exactly when the hash is. */
  function BlobFor(sha: Option<string>): (b: Option<Blob>)
    ensures b.Some? <==> sha.Some?
    ensures b.Some? ==> b.value.id == sha.value
  {
    match sha
    case None => None
    case Some(h) => Some(Blob(h))
  }

  /**
   * What every constructed record satisfies: no side keeps an all-zero hash,
   * and each side has a blob handle exactly when it has a hash, addressed by
   * that hash.
   */
  predicate Consistent(d: Diff)
  {
    && (d.aSha.Some? ==> !AllZeros(d.aSha.value))
    && (d.bSha.Some? ==> !AllZeros(d.bSha.value))
    && (d.aBlob.Some? <==> d.aSha.Some?)
    && (d.bBlob.Some? <==> d.bSha.Some?)
    && (d.aBlob.Some? ==> d.aBlob.value.id == d.aSha.value)
    && (d.bBlob.Some? ==> d.bBlob.value.id == d.bSha.value)
  }

  /**
   * The record's constructor: hashes are normalised, blob handles are made
   * from the normalised hashes, every other argument is stored as given.
   */
  function NewDiff(aPath: string, bPath: string, aSha: Option<string>, bSha: Option<string>,
                   aMode: Option<string>, bMode: Option<string>, newFile: bool, deletedFile: bool,
                   diff: Option<string>): (d: Diff)
    ensures Consistent(d)
    ensures d.aSha.None? <==> aSha.None? || AllZeros(aSha.value)
    ensures d.bSha.None? <==> bSha.None? || AllZeros(bSha.value)
    ensures d.aSha.Some? ==> d.aSha == aSha
    ensures d.bSha.Some? ==> d.bSha == bSha
    ensures d.aPath == aPath && d.bPath == bPath && d.aMode == aMode && d.bMode == bMode
    ensures d.newFile == newFile && d.deletedFile == deletedFile && d.diff == diff
  {
    var a := NormalizeSha(aSha);
    var b := NormalizeSha(bSha);
    Diff(aPath, bPath, a, b, aMode, bMode, newFile, deletedFile, diff, BlobFor(a), BlobFor(b))
  }

  /**
   * Each blob handle is determined by its own side's hash argument alone: the
   * other arguments of the constructor play no part in it.
   */
  lemma BlobOnlyFromSha(aPath: string, bPath: string, aSha: Option<string>, bSha: Option<string>,
                        aMode: Option<string>, bMode: Option<string>, newFile: bool, deletedFile: bool,
                        diff: Option<string>)
    ensures var d := NewDiff(aPath, bPath, aSha, bSha, aMode, bMode, newFile, deletedFile, diff);
            && d.aBlob == BlobFor(NormalizeSha(aSha))
            && d.bBlob == BlobFor(NormalizeSha(bSha))
  {
  }

  /** An empty diff body means "no textual diff" and becomes `None`. */
  function NormalizeBody(body: string): (r: Option<string>)
    ensures r.None? <==> body == ""
    ensures r.Some? ==> r.value == body
  {
    if body == "" then None else Some(body)
  }

  /** The text a body stands for: no body is the empty text. */
  function BodyText(body: Option<string>): string
  {
    match body
    case None => ""
    case Some(t) => t
  }

  /** Normalising a body loses nothing: the text can be recovered, and a normalised body is reproduced. */
  lemma NormalizeBodyRoundTrip(body: string, o: Option<string>)
    ensures BodyText(NormalizeBody(body)) == body
    ensures o != Some("") ==> NormalizeBody(BodyText(o)) == o
  {
  }

  /**
   * A diff record built from one file's `index` header line, its body and the
   * fields the enclosing stream supplies; the hashes and the new mode come
   * from the header line.
   */
  function DiffFromIndexLine(aPath: string, bPath: string, aMode: Option<string>,
                             newFile: bool, deletedFile: bool, indexLine: string, body: string): (d: Diff)
    requires '\n' !in indexLine
    ensures Consistent(d)
    ensures d.aSha.Some? ==> IsHex(d.aSha.value) && |d.aSha.value| > 0
    ensures d.bSha.Some? ==> IsHex(d.bSha.value) && |d.bSha.value| > 0
    ensures ParseIndexLine(indexLine) == NoMatch ==> d.aSha.None? && d.bSha.None? && d.bMode.None?
    ensures d.aSha.None? <==> ParseIndexLine(indexLine).aSha.None? || AllZeros(ParseIndexLine(indexLine).aSha.value)
    ensures d.bSha.None? <==> ParseIndexLine(indexLine).bSha.None? || AllZeros(ParseIndexLine(indexLine).bSha.value)
    ensures d.aSha.Some? ==> d.aSha == ParseIndexLine(indexLine).aSha
    ensures d.bSha.Some? ==> d.bSha == ParseIndexLine(indexLine).bSha
    ensures d.bMode == ParseIndexLine(indexLine).bMode
    ensures d.diff.None? <==> body == ""
    ensures d.diff.Some? ==> d.diff.value == body
    ensures d.aPath == aPath && d.bPath == bPath && d.aMode == aMode
    ensures d.newFile == newFile && d.deletedFile == deletedFile
  {
    var h := ParseIndexLine(indexLine);
    NewDiff(aPath, bPath, h.aSha, h.bSha, aMode, h.bMode, newFile, deletedFile, NormalizeBody(body))
  }

  /**
   * For every header line git writes, the record keeps each hash unless it is
   * all zeros, takes the mode from the line, and keeps a non-empty body as is.
   */
  lemma DiffFromFormattedLine(aPath: string, bPath: string, aMode: Option<string>, newFile: bool,
                              deletedFile: bool, h1: string, h2: string, mode: Option<string>, body: string)
    requires |h1| > 0 && IsHex(h1) && |h2| > 0 && IsHex(h2)
    requires mode.Some? ==> |mode.value| > 0 && '\n' !in mode.value
    ensures '\n' !in FormatIndexLine(h1, h2, mode)
    ensures var d := DiffFromIndexLine(aPath, bPath, aMode, newFile, deletedFile,
                                       FormatIndexLine(h1, h2, mode), body);
            && d.aSha == (if AllZeros(h1) then None else Some(h1))
            && d.bSha == (if AllZeros(h2) then None else Some(h2))
            && d.bMode == mode
            && (d.diff.Some? ==> d.diff.value == body)
  {
    ParseFormatIndexLine(h1, h2, mode);
  }

  /** The number of lines of a diff body that begin with `c`, as Ruby counts them after `split("\n")`. */
  function MarkedLines(body: string, c: char): (n: nat)
    ensures n <= |RubySplit(body)|
    ensures n > 0 <==> exists i :: 0 <= i < |RubySplit(body)| && StartsWith(RubySplit(body)[i], c)
  {
    CountStarting(RubySplit(body), c)
  }

  /** The number of inserted lines: lines beginning with `+`, less one for the `+++` header. */
  function Insertions(d: Diff): (n: int)
    requires d.diff.Some?
    ensures -1 <= n < |RubySplit(d.diff.value)|
    ensures n >= 0 <==> exists i :: 0 <= i < |RubySplit(d.diff.value)| && StartsWith(RubySplit(d.diff.value)[i], '+')
  {
    MarkedLines(d.diff.value, '+') - 1
  }

  /** The number of deleted lines: lines beginning with `-`, less one for the `---` header. */
  function Deletions(d: Diff): (n: int)
    requires d.diff.Some?
    ensures -1 <= n < |RubySplit(d.diff.value)|
    ensures n >= 0 <==> exists i :: 0 <= i < |RubySplit(d.diff.value)| && StartsWith(RubySplit(d.diff.value)[i], '-')
  {
    MarkedLines(d.diff.value, '-') - 1
  }

  /**
   * The counts against the reference reading of the body text: each count is
   * the number of line starts holding its marker, less one.
   */
  lemma CountsAreLineStarts(d: Diff)
    requires d.diff.Some?
    ensures Insertions(d) == LineStartCount(d.diff.value, '+', true) - 1
    ensures Deletions(d) == LineStartCount(d.diff.value, '-', true) - 1
  {
    CountIsLineStarts(d.diff.value, '+');
    CountIsLineStarts(d.diff.value, '-');
  }

  /** The two counts together leave room for both header lines. */
  lemma CountsBounded(d: Diff)
    requires d.diff.Some?
    ensures Insertions(d) + Deletions(d) + 2 <= |RubySplit(d.diff.value)|
  {
    CountTwoChars(RubySplit(d.diff.value), '+', '-');
  }

  /** For a body given as its lines, the counts are those of the lines themselves. */
  lemma CountsOfLines(d: Diff, lines: seq<string>)
    requires NoBreaks(lines)
    requires d.diff == Some(Join(lines))
    ensures Insertions(d) == CountStarting(lines, '+') - 1
    ensures Deletions(d) == CountStarting(lines, '-') - 1
  {
    CountJoin(lines, '+');
    CountJoin(lines, '-');
  }

  /**
   * A line that begins with neither `+` nor `-` (context ` `, hunk `@`, or
   * `\ No newline at end of file`) changes neither count.
   */
  lemma OtherLineCountsNothing(d: Diff, d': Diff, before: seq<string>, line: string, after: seq<string>)
    requires NoBreaks(before) && NoBreaks(after) && '\n' !in line
    requires !StartsWith(line, '+') && !StartsWith(line, '-')
    requires d.diff == Some(Join(before + after))
    requires d'.diff == Some(Join(before + [line] + after))
    ensures Insertions(d') == Insertions(d)
    ensures Deletions(d') == Deletions(d)
  {
    NoBreaksAppend(before, after);
    NoBreaksAppend(before, [line]);
    NoBreaksAppend(before + [line], after);
    CountsOfLines(d, before + after);
    CountsOfLines(d', before + [line] + after);
    CountAppend(before, after, '+');
    CountAppend(before, after, '-');
    CountAppend(before + [line], after, '+');
    CountAppend(before + [line], after, '-');
    CountAppend(before, [line], '+');
    CountAppend(before, [line], '-');
  }

  /**
   * The `- 1` discounts exactly the `---` and `+++` file headers: a body made of
   * those two headers followed by content lines counts the content lines alone.
   */
  lemma HeadersExcluded(d: Diff, aHdr: string, bHdr: string, content: seq<string>)
    requires '\n' !in aHdr && '\n' !in bHdr && NoBreaks(content)
    requires StartsWith(aHdr, '-') && StartsWith(bHdr, '+')
    requires d.diff == Some(Join([aHdr, bHdr] + content))
    ensures Insertions(d) == CountStarting(content, '+')
    ensures Deletions(d) == CountStarting(content, '-')
  {
    NoBreaksAppend([aHdr, bHdr], content);
    CountsOfLines(d, [aHdr, bHdr] + content);
    CountAppend([aHdr, bHdr], content, '+');
    CountAppend([aHdr, bHdr], content, '-');
  }
}
