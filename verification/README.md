# head and cat clones, modelled in Dafny

This project models the core of three small command-line tools from a Rust
solutions repository:

- `headr`, a clone of `head`. It validates `--lines`/`--bytes` with
  `parse_positive_int`. For every file that opens it prints a
  `==> name <==` header when more than one file is configured, with a blank
  line in front when the file's position in the list is not the first. It then prints either
  the first N bytes or the first N lines, terminators kept.
- `_headr`, the earlier draft of the same tool. It has the same validator
  and line mode. Its header rule differs: no blank line, and no header for
  the names `-` and `""`. Its byte-mode branch is empty.
- `catr`, a clone of `cat`. It re-prints every line of every file with
  exactly one `\n`. Lines are printed unnumbered, all numbered
  (`{:>6}\t`), or numbered only when non-blank, and the counters start
  again for each file.

In all three tools a file that cannot be opened is reported on stderr and
skipped. A read error returns from `run` with an error, so the later files
are never read.

I/O is abstracted. Each configured file comes with the outcome of `open`
for it (`Streams.Source`):

- either an error with an opaque reason,
- or a stream that delivers `data` and then reports end of file, or an
  I/O error when `fails` is set.

Content is a `string`, one char standing for one byte. Each `run` is a
method that appends to a stdout and a stderr text and returns them as an
`Emitted` value, together with whether a read error stopped it. It is
proved equal to `RunPieces`, a fold over what each file contributes.

Modules:

| file | module | models |
|---|---|---|
| `text.dfy` | `Text` | line counting and cutting (`HeadLines`), `lines()` splitting and `println!` joining, `{}` and `{:>6}` number formatting |
| `streams.dfy` | `Results`, `Streams` | sources, `read_line`, `take(n).read`, the bounded line-copy loop, the run fold |
| `validate.dfy` | `PositiveInt` | `parse_positive_int` and the `usize` parse it relies on |
| `headr.dfy` | `Head` | the final head clone: options to config, headers, byte and line mode, `run` |
| `headr_draft.dfy` | `HeadDraft` | the draft head clone: its header rule, its empty byte branch, `run` |
| `catr.dfy` | `Cat` | the cat clone: mode selection, numbering, `run` and its per-file line loop |

`str::parse::<usize>` accepts one leading `+`, so
`parse_positive_int("+5")` is `Ok(5)`; the model follows the code
(`PositiveInt.DigitsPart`).

## Model

| member | source | states |
|---|---|---|
| PositiveInt.DigitsPart | headr/src/lib.rs:120 | the text the `usize` parse reads digits from: the input, or the input without its first character when that is a '+' (properties in `DigitsPartSpec`) |
| PositiveInt.DigitsPartSpec | headr/src/lib.rs:120 | the digits part is a suffix of the input at most one shorter, and it is shorter exactly when the input starts with '+' |
| PositiveInt.ParseUsize | headr/src/lib.rs:120 | the parse succeeds exactly when what follows an optional single leading '+' is a nonempty run of decimal digits |
| PositiveInt.ParsePositiveInt | headr/src/lib.rs:119-124 | `Ok(n)` only with n > 0 and n the parsed value; on failure the error text is the input itself; it fails exactly when the text does not parse or parses to 0 |
| PositiveInt.DecimalIsAccepted | headr/src/lib.rs:119-124 | every positive number written in decimal, with or without a leading '+', is accepted with its own value |
| PositiveInt.MalformedOrZeroIsRejected | _headr/src/lib.rs:130-135 | a text holding any non-digit other than a leading '+', or any spelling of zero, is rejected with the input as the error |
| PositiveInt.SourceTestCases | headr/src/lib.rs:126-142 | "3" gives 3; "foo" and "0" fail with "foo" and "0" as their errors |
| Head.ConfigFromArgs | headr/src/lib.rs:49-71 | valid --lines and --bytes values always give a config, and a valid config holds the files, a positive line count equal to the parsed --lines value, and a positive byte count exactly when --bytes was given; a bad --lines value gives the `error: invalid value 'X' for '--lines <LINES>'` message, checked before --bytes, whose message lacks the `error: ` prefix |
| Head.LinesValueError | headr/src/lib.rs:54-55 | the message for a refused --lines value: `error: invalid value 'X' for '--lines <LINES>': invalid digit found in string`, with the refused text as X (used by `ConfigFromArgs` and `InvalidOptionMessages`) |
| Head.BytesValueError | headr/src/lib.rs:63-64 | the message for a refused --bytes value: the same text without the `error: ` prefix and naming `--bytes <BYTES>` (used by `ConfigFromArgs` and `InvalidOptionMessages`) |
| Head.InvalidOptionMessages | headr/src/lib.rs:54-55 | `--lines 0`, `--lines abc` and `--bytes 0` are refused with their values in the messages; the default "10" and `--bytes +5` are accepted |
| Head.Run | headr/src/lib.rs:82-117 | the loop over files prints exactly the fold of each file's piece, in order, and stops after the first read error |
| Head.HeadFile | headr/src/lib.rs:88-112 | one opened file prints its header and then the byte-mode or the line-mode copy; byte mode wins when a byte limit is set |
| Head.Header | headr/src/lib.rs:89-95 | the header of the file at a given position: "==> name <==" and a newline, after a "\n" when the position is not the first, and nothing with a single file (properties in `HeaderShape` and `HeaderRule`) |
| Head.HeaderShape | headr/src/lib.rs:89-95 | a header appears exactly when several files are configured, consists of whole lines, and starts with a blank line exactly when the position is not the first |
| Head.ByteModeRead | headr/src/lib.rs:97-101 | one `take(n).read` into an n-byte buffer, printed: the next min(n, size) bytes, or the stream's error when it has none (properties in `ByteModeReadSpec`) |
| Head.ByteModeReadSpec | headr/src/lib.rs:97-101 | the byte read prints a prefix of the content of length min(n, size), nothing on stderr, and aborts exactly when n > 0, the content is empty and the stream fails |
| Head.FilePiece | headr/src/lib.rs:86-112 | what one file contributes: "name: reason" on stderr for an open failure; otherwise its header and then the byte-mode or the line-mode copy (properties in `HeaderRule`, `ByteModeOutput`, `LineModeOutput`, `OpenFailureIsReported`) |
| Head.HeaderRule | headr/src/lib.rs:89-95 | with several files, the header is "==> name <==" after a "\n" exactly when the file's position is not the first, whether or not earlier files opened; with one file there is no header |
| Head.ByteModeOutput | headr/src/lib.rs:97-101 | with a byte limit b, the content printed after the header is a prefix of the file of length min(b, size), and the line count plays no part |
| Head.LineModeOutput | headr/src/lib.rs:103-111 | without a byte limit, the content printed after the header is the prefix of the file ending right after its n-th '\n', or the whole file when it has fewer than n newlines |
| Head.OpenFailureIsReported | headr/src/lib.rs:86-87 | a file that cannot be opened prints "name: reason" on stderr, has no header and does not stop the run |
| Head.RunFailsIffReadFails | headr/src/lib.rs:100-105 | the run aborts exactly when some opened file's read fails within its byte or line limit |
| HeadDraft.DraftHeader | _headr/src/lib.rs:88-90 | the draft prints "==> name <==" exactly when several files are configured and the name is neither "-" nor "" |
| HeadDraft.FilePiece | _headr/src/lib.rs:84-123 | what one file contributes to the draft's run: "name: reason" on stderr for an open failure; otherwise the draft header and, without a byte limit, the line-mode copy (properties in `OpenFailureIsReported`, `ByteModePrintsOnlyHeaders`, `LineModeAgreesWithFinal`, `HeaderRule`) |
| HeadDraft.Headers | _headr/src/lib.rs:88-90 | the draft header of each opened file, in order: the whole stdout of a byte-limited draft run (`ByteModeRunIsHeaders`) |
| HeadDraft.Run | _headr/src/lib.rs:82-128 | the draft's loop over files prints exactly the fold of each file's piece and stops after the first read error |
| HeadDraft.DraftFile | _headr/src/lib.rs:86-123 | one opened file prints the draft header, then the line-mode copy when no byte limit is set and nothing more otherwise |
| HeadDraft.ByteModePrintsOnlyHeaders | _headr/src/lib.rs:111-122 | with a byte limit an opened file contributes at most its header: no content, nothing on stderr, no read error |
| HeadDraft.ByteModeRunIsHeaders | _headr/src/lib.rs:83-127 | with a byte limit the draft never aborts, and its stdout is only the headers of the opened files |
| HeadDraft.LineModeAgreesWithFinal | _headr/src/lib.rs:92-101 | in line mode a file's content, its stderr and its abort are the final version's; only the header differs |
| HeadDraft.SingleFileAgreesWithFinal | _headr/src/lib.rs:88 | with one file and no byte limit the draft and the final version print the same |
| HeadDraft.HeaderRule | _headr/src/lib.rs:88-90 | the draft never prints a blank line before a header, and gives no header to "-", "" or a lone file |
| HeadDraft.OpenFailureIsReported | _headr/src/lib.rs:84-85 | a file that cannot be opened prints "name: reason" on stderr and nothing on stdout, and the run goes on, with or without a byte limit |
| Streams.LineModeRead | headr/src/lib.rs:103-111 | what the bounded `read_line` loop prints: the first n lines, or the complete lines and an abort when the stream fails before the n-th '\n' (properties in `LineModeReadSpec`, `CopyLines`) |
| Streams.LineModeReadSpec | headr/src/lib.rs:103-111 | the line copy prints a prefix of the content that ends a line unless it is all of it, nothing on stderr, and aborts exactly when the stream fails and holds fewer than n newlines |
| Streams.Then | headr/src/lib.rs:100-105 | the next file's output follows, unless a read error in the earlier ones already returned from `run` |
| Streams.RunPieces | headr/src/lib.rs:85-116 | the loop over files with `?`: the pieces one after another, up to and including the first that aborts (properties in `StopAt`, `RunAbortedIff`, `AbortIsFinal`, `RunOutputGrows`) |
| Streams.ReadLine | headr/src/lib.rs:105 | `read_line` yields the text up to and including the next '\n', or the unterminated rest at end of file; 0 bytes exactly at end of file; an error exactly when the stream fails before the next '\n' |
| Streams.ReadInto | headr/src/lib.rs:98-100 | `take(n).read` into an n-byte buffer fills its front with the next min(n, size) bytes of the stream, and fails only when it has none to give and the stream fails |
| Streams.CopyLines | headr/src/lib.rs:103-111 | the bounded `read_line` loop prints the first n lines with their terminators, each once, stopping at end of file; on a read error it has printed exactly the complete lines and aborts |
| Streams.EndAfterLines | headr/src/lib.rs:106-108 | end of file after i lines means the later iterations would print nothing more |
| Streams.FailureAfterLines | headr/src/lib.rs:105 | a read error after i complete lines means the stream holds exactly i newlines and everything complete has been printed |
| Streams.NextLineRead | headr/src/lib.rs:105-110 | a successful `read_line` after i lines appends exactly line i + 1 to the output |
| Streams.StopAt | headr/src/lib.rs:100 | a run whose k-th file aborts prints what came before and that file's partial output, and nothing after |
| Streams.RunAbortedIff | headr/src/lib.rs:85-116 | a run aborts exactly when one of its files aborts |
| Streams.AbortIsFinal | headr/src/lib.rs:105 | after a read error nothing more reaches stdout or stderr |
| Streams.RunOutputGrows | headr/src/lib.rs:85-115 | what has been printed stays printed: a shorter run's stdout and stderr are prefixes of a longer one's |
| Text.HeadLines | headr/src/lib.rs:104-111 | the first n lines of a text with their terminators (properties in `HeadLinesPrefix`, `HeadLinesCount`, `HeadLinesStep`, `HeadLinesUnique`) |
| Text.Complete | headr/src/lib.rs:105 | the part of a text up to and including its last '\n': what a line loop has printed when the stream fails (properties in `CompleteIsLastLineBoundary`, `CompleteAt`) |
| Text.SplitLines | catr/src/lib.rs:57 | the lines `lines()` yields, terminators removed (properties in `SplitJoin`, `JoinSplit`, `SplitLinesHaveNoNewline`) |
| Text.StripNewline | catr/src/lib.rs:57 | the '\n' that `lines()` removes from the end of a line (properties in `SplitLinesHaveNoNewline`, `SplitJoin`) |
| Text.JoinLines | catr/src/lib.rs:59 | lines printed with `println!`, each followed by one '\n' (properties in `SplitJoin`, `JoinSplit`) |
| Text.Decimal | catr/src/lib.rs:43 | a number as `{}` writes it (properties in `DecimalDigits`, `DecimalValue`) |
| Text.DigitsValue | headr/src/lib.rs:120 | the value the `usize` parse gives a run of decimal digits (properties in `DecimalValue`, `DecimalIsAccepted`) |
| Text.Pad6 | catr/src/lib.rs:25 | a number as `{:>6}` writes it (properties in `Pad6Spec`) |
| Text.LineEndSpec | headr/src/lib.rs:105 | a line read stops right after the first '\n', or at the end when there is none, with no '\n' before |
| Text.LineEnd | headr/src/lib.rs:105 | how far one `read_line` reads: through the first '\n', or to the end when there is none (properties in `LineEndSpec`) |
| Text.FirstLine | headr/src/lib.rs:105 | the text one `read_line` appends to the cleared buffer (properties in `FirstLineIsWhole`, `HeadLinesStep`) |
| Text.FirstLineIsWhole | headr/src/lib.rs:105 | the line `read_line` returns is a whole line holding one '\n' when the stream has one, none otherwise |
| Text.HeadLinesPrefix | headr/src/lib.rs:104-111 | the first n lines are a prefix of the content |
| Text.HeadLinesCount | headr/src/lib.rs:104-111 | the first n lines hold min(n, newlines) newlines and end on a line boundary unless they are the whole content |
| Text.HeadLinesStep | headr/src/lib.rs:104-110 | taking one more line appends the next line of what is left |
| Text.HeadLinesSaturate | headr/src/lib.rs:106-108 | once the whole content is taken, more iterations add nothing |
| Text.HeadLinesUnique | headr/src/lib.rs:104-111 | the prefix that holds exactly n newlines and ends a line is unique: it is the first n lines |
| Text.CompleteIsLastLineBoundary | catr/src/lib.rs:24 | the complete part of a stream is a prefix ending on a line boundary, with no '\n' after it |
| Text.CompleteAt | headr/src/lib.rs:105 | a prefix that ends a line and is followed by no '\n' is the complete part |
| Text.SplitJoin | catr/src/lib.rs:57-60 | printing lines free of '\n' with one '\n' each and splitting the result again gives back those lines |
| Text.JoinSplit | catr/src/lib.rs:57-60 | splitting a text into lines and printing each with one '\n' gives the text back, with a '\n' added after an unterminated last line |
| Text.SplitLinesHaveNoNewline | catr/src/lib.rs:57-58 | the lines `lines()` yields hold no '\n' |
| Text.DecimalDigits | catr/src/lib.rs:25 | `{}` writes a number as a nonempty run of digits without a leading zero |
| Text.DecimalValue | catr/src/lib.rs:25 | reading back the digits `{}` writes gives the number |
| Text.Pad6Spec | catr/src/lib.rs:25 | `{:>6}` is at least six wide, ends with the digits of the number and has only blanks before them |
| Cat.ModeOf | catr/src/lib.rs:17-31 | --number selects number-all whatever else is set; --number-nonblank counts only without it; no flag leaves the lines unnumbered |
| Cat.FilePiece | catr/src/lib.rs:19-27 | what one file contributes: "Failed to open name: reason" on stderr for an open failure; otherwise every line it yields, formatted, and an abort when its read fails (properties in `OpenFailureIsReported`, `RunFailsIffReadFails`, `OutputLines`) |
| Cat.FormatNext | catr/src/lib.rs:40-45 | what one loop iteration prints for a line, given the `enumerate` index and the counter (properties in `FormatNextSpec`) |
| Cat.FormatNextSpec | catr/src/lib.rs:23-45 | a printed line keeps its input line; it is numbered in --number mode, and in --number-nonblank mode exactly when the line is not empty, with the index + 1 or the counter as its number |
| Cat.Render | catr/src/lib.rs:25 | `{}` of the line alone, or `{:>6}\t{}` of the number and the line (examples in `RenderExamples`, no '\n' added in `RenderHasNoNewline`) |
| Cat.FormatFrom | catr/src/lib.rs:37-46 | the printed lines for the lines still to come, from a given index and counter, the counter moving past non-blank lines (properties in `FormatFromAt`, `PrintOne`) |
| Cat.Format | catr/src/lib.rs:23-46 | the printed lines of one file, with the index starting at 0 and the counter at 1 (properties in `FormatAt`, `NumberAllAt`, `NumberNonblankAt`, `UnnumberedIsIdentity`) |
| Cat.StreamLines | catr/src/lib.rs:57-58 | the lines `lines()` yields for a stream: all of them, or only the complete ones before a read error |
| Cat.LinesOutput | catr/src/lib.rs:57-60 | what the loop over `lines()` prints for one file (properties in `OutputLines`, `UnnumberedOutput`, `PrintLines`) |
| Cat.Run | catr/src/lib.rs:15-67 | the loop over files prints exactly the fold of each file's piece in the chosen mode, and stops after the first read error |
| Cat.PrintLines | catr/src/lib.rs:23-60 | the loop over `lines()` prints every line the stream yields, formatted in the mode with fresh index and counter, each followed by one '\n', and aborts exactly on a read error |
| Cat.PrintStep | catr/src/lib.rs:38-45 | one line read, formatted and printed keeps what was printed plus what remains equal to the file's whole output, with the index moving on and the counter moving only past non-blank lines |
| Cat.LinesStep | catr/src/lib.rs:57-58 | one successful read takes the next line, stripped of its '\n', off the lines still to come |
| Cat.FormatAt | catr/src/lib.rs:23-46 | line i of a file is formatted with index i and counter 1 + the non-blank lines before it |
| Cat.NumberAllAt | catr/src/lib.rs:23-25 | with --number, line i (from 0) is printed with the number i + 1, empty lines included |
| Cat.NumberNonblankAt | catr/src/lib.rs:37-46 | with --number-nonblank, an empty line is printed bare and any other line carries 1 + the non-blank lines before it |
| Cat.NonBlankCountGrows | catr/src/lib.rs:44 | the counter moves on exactly after a non-blank line, so the non-blank lines are numbered 1, 2, 3 without gaps |
| Cat.UnnumberedIsIdentity | catr/src/lib.rs:57-60 | without a flag every line is printed unchanged |
| Cat.UnnumberedOutput | catr/src/lib.rs:57-60 | without a flag a file read to its end is printed as it is, with one '\n' added after an unterminated last line |
| Cat.RenderHasNoNewline | catr/src/lib.rs:25 | a numbered line holds no '\n' that its input line did not hold |
| Cat.OutputLines | catr/src/lib.rs:15-67 | each line a file yields becomes exactly one printed line: reading the output back as lines gives the formatted lines, one per input line |
| Cat.RenderedAt | catr/src/lib.rs:24-25 | the i-th printed line's text is the rendering of the i-th formatted line |
| Cat.NumberAllOutputAt | catr/src/lib.rs:22-26 | with --number, line i of a file's printed text is `{:>6}` of i + 1, a tab, and line i of the file |
| Cat.NumberNonblankOutputAt | catr/src/lib.rs:37-46 | with --number-nonblank, line i of a file's printed text is empty for an empty line, and otherwise `{:>6}` of 1 + the non-blank lines before it, a tab, and the line |
| Cat.NumberAllExample | catr/src/lib.rs:23-25 | with --number, "a", "" and "b" get the numbers 1, 2 and 3 |
| Cat.NumberNonblankExample | catr/src/lib.rs:40-45 | with --number-nonblank, "a", "" and "b" are printed as number 1, a bare empty line and number 2 |
| Cat.RenderExamples | catr/src/lib.rs:25 | number 1 is printed as five blanks, "1", a tab and the line; 123456 fills all six columns |
| Cat.WhitespaceIsNonBlank | catr/src/lib.rs:40 | a line of blanks and tabs is not the empty line and is numbered |
| Cat.FirstLineIsNumberOne | catr/src/lib.rs:23-25 | in a numbered mode, a file whose first line is not empty starts with that line as number 1 |
| Cat.NumberingRestartsPerFile | catr/src/lib.rs:37 | whatever earlier files printed, an opened file's first non-empty first line is printed as number 1 |
| Cat.OpenFailureIsReported | catr/src/lib.rs:20 | a file that cannot be opened prints "Failed to open name: reason" on stderr, nothing on stdout, and the run goes on |
| Cat.RunFailsIffReadFails | catr/src/lib.rs:24 | the run aborts exactly when some opened file has a read error |

## Left out

- `get_args`: the clap argument parsing, its defaults and `conflicts_with` are not modelled. `Head.ConfigFromArgs` starts from the values clap matched. Only the validation and the two message strings are modelled.
- `open`, `File::open`, `io::stdin` and `BufReader` are not modelled. Each configured file comes with its open outcome, and "-" always opens.
- Real printing is not modelled. `print!`, `println!` and `eprintln!` append to the stdout and stderr texts of an `Emitted` value.
- The text of `io::Error` values is opaque.
- UTF-8 is not modelled: `String::from_utf8_lossy` and the UTF-8 checks inside `read_line` and `lines()`. One char stands for one byte.
- The '\r' that `lines()` strips before a final '\n' is not modelled.
- Streams.ReadInto: a single `read` may legally return fewer bytes than are available. The model always returns min(n, available) bytes.
- PositiveInt.ParseUsize: the `usize` overflow limit is not modelled. Any run of digits parses to its unbounded value.
- Cat.PrintLines: the `i32` counter `num` is unbounded here, so its overflow after 2^31 - 1 non-blank lines is not modelled.
- Cat.PrintLines: the source has three loops, one per numbering mode. The model has one loop that formats each line by the mode chosen once at the start. Both print the same text.
- A stream error is modelled as coming after all of `data`. An error that hits in the middle of a line drops that partial line, as `read_line` and `lines()` do.
- HeadDraft.DraftFile: the draft's unused `num` String (_headr/src/lib.rs:87) is left out.
- HeadDraft: the draft's commented-out loops (_headr/src/lib.rs:102-109, 112-120) are not code and are not modelled.
