# Grit diff records in Dafny

Grit is a Ruby wrapper around the `git` command line. It parses git's text
output into objects. This project models the value object that holds one
file's entry of a unified diff, `Grit::Diff`:

- the two content hashes `a_sha` and `b_sha`. A hash made only of zeros is git's
  marker for "no content on this side", and the record keeps it as `nil`;
- the blob handles `a_blob` and `b_blob`. A handle exists exactly when its side
  has a hash;
- the `index <hash>..<hash>[ <mode>]` header line. It is read with the pattern
  `^index ([0-9A-Fa-f]+)\.\.([0-9A-Fa-f]+) ?(.+)?$`, which the model writes out
  as a small deterministic recogniser;
- the diff body. An empty body becomes `nil`;
- the derived counts `insertions` and `deletions`.

Ruby's `nil` is `Option.None`. Strings are `seq<char>`.

Modules, one per concern:

- `Wrappers`: the `Option` type.
- `Lines`: Ruby's `split("\n", -1)` (`Fields`, which gives no fields for the empty text and
  otherwise the pieces between line breaks, `Pieces`), `split("\n")` (`RubySplit`), `join("\n")`
  (`Join`), and counting lines that start with a character (`CountStarting`). `LineStartCount`
  is an independent reference count computed straight on the text.
- `Hashes`: hex digits, the greedy hex run, the `^0*$` recogniser and hash normalisation.
- `IndexLine`: the header-line recogniser. `HashesCapture` and `Captures` are a relational
  reference definition of a leftmost, greedy match. `FormatIndexLine` builds the line git writes.
- `GritDiff`: the record, its constructor, the empty-body rule, and the insertion and deletion counts.
- `DiffExamples`: the new-file, modified-file and removed-file records that the repository's
  status tests check.

Two differences from a looser reading of the header format. First, the code accepts hash runs
of any non-empty length, not only abbreviated hashes of seven or more digits. Second, the space
before the mode is optional: `index ab..cdXY` matches, with mode `XY`. The model follows the code.

In `DiffExamples`, each body is written as its list of lines joined by line breaks. The last
element is an empty line, which stands for the line break that ends the body. Each list is
written to equal the string literal in the test; no lemma states that equality.

## Model

| member | source | states |
|---|---|---|
| Hashes.NormalizeSha | lib/grit/diff.rb:3-4 | `nil` stays `nil`. A hash made only of `'0'` characters, including the empty string, becomes `nil`. Any other hash is returned unchanged. A normalised hash is never all zeros. |
| Hashes.MatchesZeroRunIsAllZeros | lib/grit/diff.rb:3-4 | The recogniser for `^0*$` on a single-line string accepts exactly the strings whose every character is `'0'`. |
| Hashes.NormalizeShaIdempotent | lib/grit/diff.rb:3-4 | Normalising an already normalised hash changes nothing. |
| Hashes.HexRunLength | lib/grit/diff.rb:8 | The greedy `[0-9A-Fa-f]+` run: the prefix it measures is all hex digits, and the character after it, if any, is not a hex digit. |
| Hashes.HexRunOfHexPrefix | lib/grit/diff.rb:8 | A hex prefix adds its length to the hex run of the text after it. |
| GritDiff.BlobFor | lib/grit/diff.rb:5-6 | A blob handle is present exactly when the normalised hash is present, and it is addressed by that hash. |
| GritDiff.NewDiff | lib/grit/diff.rb:2-6 | The constructor leaves no all-zero hash on either side. Each side keeps its hash argument unless that argument is all zeros. Each side has a blob handle exactly when it has a hash. Paths, modes, flags and body are stored as given. |
| GritDiff.BlobOnlyFromSha | lib/grit/diff.rb:5-6 | Each side's blob handle is a function of that side's hash argument alone. No other constructor argument affects it. |
| IndexLine.ModeCapture | lib/grit/diff.rb:8 | The ` ?(.+)?` tail takes a leading space if there is one. It captures the non-empty rest as the mode, or nothing. Putting the space back in front of the mode rebuilds the tail exactly. |
| IndexLine.ParseHashes | lib/grit/diff.rb:8 | After `index `, the parser either fails with all captures `nil`, or returns two captures that satisfy the greedy-match definition for that text. |
| IndexLine.ParseIndexLine | lib/grit/diff.rb:8 | The two hash captures are both present, or all three captures are `nil`; no error is raised. On a match the mode capture may be `nil`. When the hashes are present, they are non-empty hex runs and the line is a greedy match with exactly these captures. |
| IndexLine.ParseHashesComplete | lib/grit/diff.rb:8 | Whenever captures describe a greedy match of the text after `index `, the parser returns exactly those captures. |
| IndexLine.ParseIndexLineComplete | lib/grit/diff.rb:8 | Whenever captures describe a greedy match of the whole line, the parser returns exactly those captures. So the captures of a match are unique. |
| IndexLine.ParseIndexLineMatches | lib/grit/diff.rb:8 | Every line made of `index `, a non-empty hex run H1, `..`, a non-empty hex run H2 and any tail matches. The first capture is H1 and the second begins with H2. So the parser yields `nil`s only for lines not of this form. |
| IndexLine.ParseFormatIndexLine | lib/grit/diff.rb:8 | Parsing the line `index H1..H2` or `index H1..H2 M` gives back H1, H2, and M or `nil`. |
| GritDiff.NormalizeBody | lib/grit/diff.rb:9 | The body becomes `nil` exactly when it is empty. A non-empty body is kept character for character. |
| GritDiff.NormalizeBodyRoundTrip | lib/grit/diff.rb:9 | No text is lost by the empty-body rule. Reading a `nil` body as the empty text recovers the input, and every normalised body is reproduced. |
| GritDiff.DiffFromIndexLine | lib/grit/diff.rb:8-10 | A record built from a header line and a body takes its hashes from the line's captures. Each hash is absent exactly when its capture is absent or all zeros, and is otherwise that capture, a non-empty hex run. Blob handles match the hashes. The mode is the line's mode capture. An unmatched line gives no hashes and no mode. The body is `nil` exactly when it is empty and otherwise the body text itself. Paths, the old mode and the flags are passed through. |
| GritDiff.DiffFromFormattedLine | lib/grit/diff.rb:8-10 | For every header line `index H1..H2[ M]` git writes, the record's hashes are H1 and H2, each dropped when all zeros. Its mode is M or `nil`, and a present body is the given text. |
| Lines.Fields | lib/grit/diff.rb:7 | Splitting with limit -1 yields no fields exactly for the empty text, and no field contains a line break. |
| Lines.JoinFields | lib/grit/diff.rb:7 | Joining the fields with line breaks rebuilds the text exactly, so no character is lost or added. |
| Lines.FieldsJoin | lib/grit/diff.rb:7 | Splitting a join of break-free lines gives back those lines, the empty list included. The one exception is the single empty line, whose join is the empty text with no fields. |
| Lines.DropTrailingEmpty | lib/grit/diff.rb:15 | The result is the longest prefix of the fields that does not end in an empty field. Every field it drops is empty. |
| Lines.RubySplit | lib/grit/diff.rb:15 | `split("\n")` yields lines without line breaks. |
| Lines.CountStarting | lib/grit/diff.rb:15 | The count is at most the number of lines. It is non-zero exactly when some line starts with the character. |
| Lines.CountAppend | lib/grit/diff.rb:15 | The count of a concatenation of line lists is the sum of the two counts. |
| Lines.CountRubySplit | lib/grit/diff.rb:15 | Dropping trailing empty fields never changes a count, so `split("\n")` and `split("\n", -1)` count alike. |
| Lines.CountTwoChars | lib/grit/diff.rb:13-22 | No line starts with two different characters, so the `+` count and the `-` count add up to at most the number of lines. |
| Lines.LineStartCountPieces | lib/grit/diff.rb:15 | The count of pieces between line breaks that start with a character equals the number of line-start positions in the text that hold it. |
| Lines.CountIsLineStarts | lib/grit/diff.rb:15 | Ruby's split-and-count equals the reference count of line-start positions that hold the character. |
| GritDiff.MarkedLines | lib/grit/diff.rb:15 | The number of body lines starting with the character is at most the number of lines. It is positive exactly when some such line exists. |
| GritDiff.Insertions | lib/grit/diff.rb:18-22 | The result is at least -1 and at most the number of lines minus 1. It is 0 or more exactly when some line starts with `+`, such as the `+++` header. |
| GritDiff.Deletions | lib/grit/diff.rb:12-16 | The result is at least -1 and at most the number of lines minus 1. It is 0 or more exactly when some line starts with `-`, such as the `---` header. |
| GritDiff.CountsAreLineStarts | lib/grit/diff.rb:12-22 | `insertions` is the number of line starts holding `+`, minus 1. `deletions` is the number holding `-`, minus 1. |
| GritDiff.CountsBounded | lib/grit/diff.rb:12-22 | `insertions + deletions + 2` never exceeds the number of lines. |
| GritDiff.CountsOfLines | lib/grit/diff.rb:12-22 | For a body given as break-free lines, each count is the number of those lines with its marker, minus 1. |
| GritDiff.OtherLineCountsNothing | lib/grit/diff.rb:12-22 | A line starting with neither `+` nor `-` changes neither count. This covers context lines, `@@` hunk lines and `\ No newline at end of file`. |
| GritDiff.HeadersExcluded | lib/grit/diff.rb:12-22 | The `- 1` discounts exactly the `---` and `+++` file headers: for a body of those two headers followed by content lines, `insertions` is the number of content lines starting with `+` and `deletions` the number starting with `-`. |
| DiffExamples.AddedFileExample | test/test_status.rb:179-188 | For a new file, `a_sha` and `a_blob` are `nil`, `b_sha` is `86e041d`, and the body is kept. There are 3 insertions and 0 deletions. |
| DiffExamples.ModifiedFileExample | test/test_status.rb:282-291 | For a modified file, both hashes are kept and the mode is read. There are 2 insertions and 1 deletion, and the `\ No newline` line is not counted. |
| DiffExamples.RemovedFileExample | test/test_status.rb:496-505 | For a removed file, `a_sha` is `86e041d`, and `b_sha` and `b_blob` are `nil`. There are 0 insertions and 3 deletions. |
| DiffExamples.MalformedHeaderExample | lib/grit/diff.rb:8-9 | A header line that is not an `index` line gives no hashes, no mode and no blob handles. An empty body gives no body. |

## Left out

- `Blob.create` and the repository handle (lib/grit/diff.rb:5-6) belong to an object store that is not part of this model. A blob handle is modelled as the hash it is addressed by.
- The multi-file diff splitter around lib/grit/diff.rb:7-10 is only partly shown. So `a_path`, `b_path`, `a_mode`, `new_file`, `deleted_file` and the body are inputs. The model does not cover which element of `lines` the header is, or how many lines are shifted before it.
- Status classification is not modelled. This covers untracked, added, modified and deleted entries, single records and staged/unstaged pairs, and `blob(stage)`. Its implementation is not part of this model.
- The test suite's temporary repositories, file writes and mocked `git` invocations are I/O and process control.
- GritDiff.Insertions and GritDiff.Deletions require a present body. In Ruby, calling them on a `nil` body raises `NoMethodError`, and that error path is not modelled.
- Hashes.NormalizeSha reads `^0*$` over the whole string. Ruby's `^` and `$` are line anchors, so for a hash that contains a line break Ruby would also return `nil` when any one of its lines is all zeros. Hashes read from an index line are hex runs without line breaks (GritDiff.DiffFromIndexLine), so only a multi-line hash passed directly to the constructor would differ.
- IndexLine.ParseIndexLine requires a line without line breaks. The line is an element of `text.split("\n", -1)`, so it never holds one. Line-anchor behaviour on multi-line input is not modelled.
- GritDiff.NewDiff stores paths, modes, flags and body unchanged. The source shows only the hash and blob assignments of `initialize` (lib/grit/diff.rb:2-6), so the other assignments are assumed to store their arguments. The tests read back paths, flags and body unchanged (test/test_status.rb:181-185, 188) but never read the modes.
- The case where the diff text has no lines is not modelled. There `lines.shift` is `nil`, and `nil.match` raises `NoMethodError`.
