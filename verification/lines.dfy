/**
 * Splitting a text into lines the way Ruby's `String#split("\n")` does, joining
 * lines back together, and counting the lines that begin with a given character.
 */
module Lines {

  /** True if `line` is non-empty and its first character is `c` (Ruby's `start_with?`). */
  predicate StartsWith(line: string, c: char)
  {
    |line| > 0 && line[0] == c
  }

  /** True if no line of `lines` contains a line break. */
  predicate NoBreaks(lines: seq<string>)
  {
    forall i :: 0 <= i < |lines| ==> '\n' !in lines[i]
  }

  /** Concatenating newline-free line lists keeps them newline-free. */
  lemma NoBreaksAppend(a: seq<string>, b: seq<string>)
    requires NoBreaks(a) && NoBreaks(b)
    ensures NoBreaks(a + b)
  {
    forall i | 0 <= i < |a + b| ensures '\n' !in (a + b)[i] {
      if i >= |a| { assert (a + b)[i] == b[i - |a|]; }
    }
  }

  /**
   * The pieces of `s` between line breaks, keeping every empty piece:
   * "a\n" gives ["a", ""], and "" gives the single empty piece [""].
   */
  function Pieces(s: string): (r: seq<string>)
    ensures |r| >= 1
    ensures NoBreaks(r)
    decreases |s|
  {
    if |s| == 0 then [""]
    else if s[0] == '\n' then [""] + Pieces(s[1..])
    else
      var f := Pieces(s[1..]);
      [[s[0]] + f[0]] + f[1..]
  }

  /**
   * Ruby's `split("\n", -1)`: the pieces between line breaks, trailing empty
   * ones included, except that the empty text has no fields at all.
   */
  function Fields(s: string): (r: seq<string>)
    ensures r == [] <==> s == ""
    ensures NoBreaks(r)
  {
    if |s| == 0 then [] else Pieces(s)
  }

  /** The lines of `lines` separated by single line breaks (Ruby's `join("\n")`). */
  function Join(lines: seq<string>): string
  {
    if |lines| == 0 then ""
    else if |lines| == 1 then lines[0]
    else lines[0] + "\n" + Join(lines[1..])
  }

  /**
   * `lines` without its trailing empty strings, which is what Ruby's `split`
   * does when it is given no limit.
   */
  function DropTrailingEmpty(lines: seq<string>): (r: seq<string>)
    ensures |r| <= |lines| && r == lines[..|r|]
    ensures |r| == 0 || r[|r| - 1] != ""
    ensures forall i :: |r| <= i < |lines| ==> lines[i] == ""
  {
    if |lines| == 0 || lines[|lines| - 1] != "" then lines
    else DropTrailingEmpty(lines[..|lines| - 1])
  }

  /** Ruby's `s.split("\n")`: the line-break separated pieces without trailing empty ones. */
  function RubySplit(s: string): (r: seq<string>)
    ensures NoBreaks(r)
  {
    DropTrailingEmpty(Fields(s))
  }

  /** The number of lines of `lines` that begin with `c`. */
  function CountStarting(lines: seq<string>, c: char): (n: nat)
    ensures n <= |lines|
    ensures n > 0 <==> exists i :: 0 <= i < |lines| && StartsWith(lines[i], c)
  {
    if |lines| == 0 then 0
    else
      assert forall i :: 1 <= i < |lines| ==> lines[i] == lines[1..][i - 1];
      (if StartsWith(lines[0], c) then 1 else 0) + CountStarting(lines[1..], c)
  }

  /**
   * Reference definition of the same count straight on the text: the number of
   * positions of `s` that hold `c` and begin a line. `atStart` says whether
   * position 0 of `s` begins a line.
   */
  function LineStartCount(s: string, c: char, atStart: bool): nat
    decreases |s|
  {
    if |s| == 0 then 0
    else (if atStart && s[0] == c then 1 else 0) + LineStartCount(s[1..], c, s[0] == '\n')
  }

  /** Joining the pieces rebuilds the text: no character is lost or added by `Pieces`. */
  lemma {:induction false} JoinPieces(s: string)
    ensures Join(Pieces(s)) == s
    decreases |s|
  {
    if |s| == 0 {
    } else if s[0] == '\n' {
      JoinPieces(s[1..]);
      assert Pieces(s) == [""] + Pieces(s[1..]);
      assert s == "" + "\n" + s[1..];
    } else {
      var f := Pieces(s[1..]);
      JoinPieces(s[1..]);
      if |f| == 1 {
        assert Pieces(s) == [[s[0]] + f[0]];
        assert s == [s[0]] + s[1..];
      } else {
        assert Join(f) == f[0] + "\n" + Join(f[1..]);
        assert Pieces(s)[1..] == f[1..];
        assert s == ([s[0]] + f[0]) + "\n" + Join(f[1..]);
      }
    }
  }

  /** A text without line breaks is a single field. */
  lemma {:induction false} PiecesOfLine(l: string)
    requires '\n' !in l
    ensures Pieces(l) == [l]
    decreases |l|
  {
    if |l| > 0 {
      assert '\n' !in l[1..];
      PiecesOfLine(l[1..]);
      assert [l[0]] + l[1..] == l;
    }
  }

  /** A line followed by a line break contributes exactly itself as the first field. */
  lemma {:induction false} PiecesOfLineThenBreak(l: string, t: string)
    requires '\n' !in l
    ensures Pieces(l + "\n" + t) == [l] + Pieces(t)
    decreases |l|
  {
    if |l| == 0 {
      assert l + "\n" + t == "\n" + t;
      assert ("\n" + t)[1..] == t;
    } else {
      assert '\n' !in l[1..];
      PiecesOfLineThenBreak(l[1..], t);
      assert (l + "\n" + t)[1..] == l[1..] + "\n" + t;
      assert [l[0]] + l[1..] == l;
    }
  }

  /** Joining newline-free lines and cutting at line breaks again gives the lines back. */
  lemma {:induction false} PiecesJoin(lines: seq<string>)
    requires |lines| > 0
    requires NoBreaks(lines)
    ensures Pieces(Join(lines)) == lines
    decreases |lines|
  {
    if |lines| == 1 {
      PiecesOfLine(lines[0]);
    } else {
      assert NoBreaks(lines[1..]) by {
        forall i | 0 <= i < |lines[1..]|
          ensures '\n' !in lines[1..][i]
        {
          assert lines[1..][i] == lines[i + 1];
        }
      }
      PiecesJoin(lines[1..]);
      assert '\n' !in lines[0];
      PiecesOfLineThenBreak(lines[0], Join(lines[1..]));
      assert [lines[0]] + lines[1..] == lines;
    }
  }

  /** Splitting and joining are inverse: no character is lost or added by `Fields`. */
  lemma JoinFields(s: string)
    ensures Join(Fields(s)) == s
  {
    JoinPieces(s);
  }

  /**
   * Joining newline-free lines and splitting again gives the lines back, except
   * for the single empty line, whose join is the empty text with no fields.
   * The empty list is no exception: its join is the empty text too.
   */
  lemma FieldsJoin(lines: seq<string>)
    requires lines != [""]
    requires NoBreaks(lines)
    ensures Fields(Join(lines)) == lines
  {
    if |lines| == 0 {
    } else if |lines| == 1 {
      PiecesJoin(lines);
      assert lines[0] != "";
    } else {
      PiecesJoin(lines);
      assert Join(lines) == lines[0] + "\n" + Join(lines[1..]);
    }
  }

  /** Counting distributes over concatenation of line lists. */
  lemma {:induction false} CountAppend(a: seq<string>, b: seq<string>, c: char)
    ensures CountStarting(a + b, c) == CountStarting(a, c) + CountStarting(b, c)
    decreases |a|
  {
    if |a| > 0 {
      CountAppend(a[1..], b, c);
      assert (a + b)[1..] == a[1..] + b;
    } else {
      assert a + b == b;
    }
  }

  /** A list of empty lines has no line beginning with any character. */
  lemma {:induction false} CountEmptyLines(lines: seq<string>, c: char)
    requires forall i :: 0 <= i < |lines| ==> lines[i] == ""
    ensures CountStarting(lines, c) == 0
  {
  }

  /** Dropping trailing empty fields does not change any count, so the limit given to `split` does not matter for counting. */
  lemma CountRubySplit(s: string, c: char)
    ensures CountStarting(RubySplit(s), c) == CountStarting(Fields(s), c)
  {
    var f := Fields(s);
    var r := RubySplit(s);
    assert f == r + f[|r|..];
    CountAppend(r, f[|r|..], c);
    CountEmptyLines(f[|r|..], c);
  }

  /** Counting the lines of joined newline-free lines counts the lines themselves. */
  lemma CountJoin(lines: seq<string>, c: char)
    requires NoBreaks(lines)
    ensures CountStarting(RubySplit(Join(lines)), c) == CountStarting(lines, c)
  {
    CountRubySplit(Join(lines), c);
    if lines == [""] {
      assert Fields(Join(lines)) == [];
    } else if |lines| > 0 {
      FieldsJoin(lines);
    }
  }

  /** No line begins with two different characters, so two counts never add up past the number of lines. */
  lemma {:induction false} CountTwoChars(lines: seq<string>, c: char, d: char)
    requires c != d
    ensures CountStarting(lines, c) + CountStarting(lines, d) <= |lines|
    decreases |lines|
  {
    if |lines| > 0 {
      CountTwoChars(lines[1..], c, d);
    }
  }

  /**
   * The line-based count agrees with the character-based reference: for a text
   * whose first field may or may not begin a line (`atStart`), the positions
   * holding `c` at a line start are exactly the fields beginning with `c`.
   */
  lemma {:induction false} LineStartCountPieces(s: string, c: char, atStart: bool)
    requires c != '\n'
    ensures LineStartCount(s, c, atStart)
         == CountStarting(Pieces(s)[1..], c)
            + (if atStart && StartsWith(Pieces(s)[0], c) then 1 else 0)
    decreases |s|
  {
    if |s| == 0 {
    } else if s[0] == '\n' {
      var f := Pieces(s[1..]);
      LineStartCountPieces(s[1..], c, true);
      assert Pieces(s)[1..] == f;
      assert CountStarting(f, c)
          == (if StartsWith(f[0], c) then 1 else 0) + CountStarting(f[1..], c);
    } else {
      var f := Pieces(s[1..]);
      LineStartCountPieces(s[1..], c, false);
      assert Pieces(s)[1..] == f[1..];
      assert Pieces(s)[0] == [s[0]] + f[0];
    }
  }

  /** Ruby's split-and-count equals the number of line starts holding `c`. */
  lemma CountIsLineStarts(s: string, c: char)
    requires c != '\n'
    ensures CountStarting(RubySplit(s), c) == LineStartCount(s, c, true)
  {
    CountRubySplit(s, c);
    LineStartCountPieces(s, c, true);
    var f := Pieces(s);
    assert |s| > 0 ==> Fields(s) == f;
    assert CountStarting(f, c)
        == (if StartsWith(f[0], c) then 1 else 0) + CountStarting(f[1..], c);
  }
}
