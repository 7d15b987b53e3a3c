/**
 * Concrete records: the header lines git writes for a newly added, a
 * modified and a removed three-line file, with the bodies git prints for them.
 */
module DiffExamples {
  import opened Wrappers
  import opened Hashes
  import opened Lines
  import opened IndexLine
  import opened GritDiff

  // Each body is given as its lines joined by line breaks; the final empty
  // line stands for the line break that ends the body.
  const AddedLines := ["--- /dev/null", "+++ b/newly_added.txt", "@@ -0,0 +1,3 @@", "+foo", "+bar", "+baz", ""]
  const ModifiedLines := ["--- a/modified.txt", "+++ b/modified.txt", "@@ -1,2 +1,3 @@", " foo", "-bar",
                          "\\ No newline at end of file", "+bar", "+baz", ""]
  const RemovedLines := ["--- a/removed.txt", "+++ /dev/null", "@@ -1,3 +0,0 @@", "-foo", "-bar", "-baz", ""]

  const AddedHeader := FormatIndexLine("0000000", "86e041d", None)
  const ModifiedHeader := FormatIndexLine("a907ec3", "86e041d", Some("100644"))
  const RemovedHeader := FormatIndexLine("86e041d", "0000000", None)

  // Facts about the literal lines and hashes, each in a lemma of its own so
  // that every proof stays small.

  lemma AddedLinesFacts()
    ensures NoBreaks(AddedLines)
    ensures CountStarting(AddedLines, '+') == 4 && CountStarting(AddedLines, '-') == 1
  {
  }

  lemma NoBreakMarkerLine()
    ensures '\n' !in "\\ No newline at end of file"
  {
  }

  lemma ModifiedLinesFacts()
    ensures NoBreaks(ModifiedLines)
    ensures CountStarting(ModifiedLines, '+') == 3 && CountStarting(ModifiedLines, '-') == 2
  {
    ModifiedLinesNoBreaks();
    ModifiedLinesCounts();
  }

  lemma ModifiedLinesNoBreaks()
    ensures NoBreaks(ModifiedLines)
  {
    var front := ["--- a/modified.txt", "+++ b/modified.txt", "@@ -1,2 +1,3 @@", " foo", "-bar"];
    var back := ["+bar", "+baz", ""];
    assert NoBreaks(front) && NoBreaks(back);
    NoBreakMarkerLine();
    NoBreaksAppend(front, ["\\ No newline at end of file"]);
    NoBreaksAppend(front + ["\\ No newline at end of file"], back);
    assert ModifiedLines == front + ["\\ No newline at end of file"] + back;
  }

  lemma ModifiedLinesCounts()
    ensures CountStarting(ModifiedLines, '+') == 3 && CountStarting(ModifiedLines, '-') == 2
  {
  }

  lemma RemovedLinesFacts()
    ensures NoBreaks(RemovedLines)
    ensures CountStarting(RemovedLines, '+') == 1 && CountStarting(RemovedLines, '-') == 4
  {
  }

  lemma HashFacts()
    ensures IsHex("0000000") && AllZeros("0000000")
    ensures IsHex("86e041d") && !AllZeros("86e041d")
    ensures IsHex("a907ec3") && !AllZeros("a907ec3")
  {
    assert "86e041d"[0] != '0';
    assert "a907ec3"[0] != '0';
  }

  /** A newly added file: no old side, the new hash kept, three insertions and no deletion. */
  lemma AddedFileExample()
    ensures '\n' !in AddedHeader
    ensures var d := DiffFromIndexLine("newly_added.txt", "newly_added.txt", None, true, false,
                                       AddedHeader, Join(AddedLines));
            && d.aSha == None && d.aBlob == None
            && d.bSha == Some("86e041d") && d.bBlob == Some(Blob("86e041d"))
            && d.diff == Some(Join(AddedLines))
            && Insertions(d) == 3 && Deletions(d) == 0
  {
    HashFacts();
    ParseFormatIndexLine("0000000", "86e041d", None);
    AddedLinesFacts();
    var d := DiffFromIndexLine("newly_added.txt", "newly_added.txt", None, true, false,
                               AddedHeader, Join(AddedLines));
    CountsOfLines(d, AddedLines);
  }

  /** A modified file: both hashes kept, the mode read, two insertions and one deletion. */
  lemma ModifiedFileExample()
    ensures '\n' !in ModifiedHeader
    ensures var d := DiffFromIndexLine("modified.txt", "modified.txt", Some("100644"), false, false,
                                       ModifiedHeader, Join(ModifiedLines));
            && d.aSha == Some("a907ec3") && d.bSha == Some("86e041d") && d.bMode == Some("100644")
            && Insertions(d) == 2 && Deletions(d) == 1
  {
    HashFacts();
    ParseFormatIndexLine("a907ec3", "86e041d", Some("100644"));
    ModifiedLinesFacts();
    var d := DiffFromIndexLine("modified.txt", "modified.txt", Some("100644"), false, false,
                               ModifiedHeader, Join(ModifiedLines));
    CountsOfLines(d, ModifiedLines);
  }

  /** A removed file: the old hash kept, no new side, no insertion and three deletions. */
  lemma RemovedFileExample()
    ensures '\n' !in RemovedHeader
    ensures var d := DiffFromIndexLine("removed.txt", "removed.txt", Some("100644"), false, true,
                                       RemovedHeader, Join(RemovedLines));
            && d.aSha == Some("86e041d") && d.aBlob == Some(Blob("86e041d"))
            && d.bSha == None && d.bBlob == None
            && d.diff == Some(Join(RemovedLines))
            && Insertions(d) == 0 && Deletions(d) == 3
  {
    HashFacts();
    ParseFormatIndexLine("86e041d", "0000000", None);
    RemovedLinesFacts();
    var d := DiffFromIndexLine("removed.txt", "removed.txt", Some("100644"), false, true,
                               RemovedHeader, Join(RemovedLines));
    CountsOfLines(d, RemovedLines);
  }

  const SimilarityHeader := "similarity index 100%"

  lemma SimilarityHeaderFacts()
    ensures '\n' !in SimilarityHeader
    ensures ParseIndexLine(SimilarityHeader) == NoMatch
  {
    var l := SimilarityHeader;
    forall j | 0 <= j < |l| ensures l[j] != '\n' {
    }
    assert l[..6][0] != "index "[0];
  }

  /** A line that is not an `index` header yields no hashes, no mode and no blob handles. */
  lemma MalformedHeaderExample()
    ensures '\n' !in SimilarityHeader
    ensures var d := DiffFromIndexLine("f", "f", None, false, false, SimilarityHeader, "");
            && d.aSha == None && d.bSha == None && d.bMode == None
            && d.aBlob == None && d.bBlob == None && d.diff == None
  {
    SimilarityHeaderFacts();
  }
}
