/**
 * catr, the cat clone: every configured file, in order, is printed line
 * by line, each line followed by exactly one '\n', either as it is or
 * with a line number in front. A file that cannot be opened is reported
 * on stderr and skipped; a read error ends the whole run.
 */
module Cat {
  import opened Text
  import opened Streams

  /** The flags as `get_args` records them; both may be set. */
  datatype Config = Config(files: seq<string>, numberLines: bool, numberNonblankLines: bool)

  /** Which of `run`'s three loops handles the files. */
  datatype Numbering = Unnumbered | NumberAll | NumberNonblank

  /** `run` tests --number first, so it wins when both flags are set. */
  function ModeOf(cfg: Config): (m: Numbering)
    ensures m == NumberAll <==> cfg.numberLines
    ensures m == NumberNonblank <==> !cfg.numberLines && cfg.numberNonblankLines
    ensures m == Unnumbered <==> !cfg.numberLines && !cfg.numberNonblankLines
  {
    if cfg.numberLines then NumberAll
    else if cfg.numberNonblankLines then NumberNonblank
    else Unnumbered
  }

  /** What one `println!` of the loops prints before its '\n': the line alone, or `{:>6}\t{}` of a number and the line. */
  datatype OutLine = Plain(text: string) | Numbered(num: nat, text: string)

  /** `{:>6}` right-aligns the number in six columns; a tab separates it from the line. */
  function Render(o: OutLine): string {
    match o
    case Plain(line) => line
    case Numbered(k, line) => Pad6(k) + "\t" + line
  }

  /** How many of ls are not the empty line. */
  function NonBlankCount(ls: seq<string>): nat {
    if ls == [] then 0
    else (if ls[0] == "" then 0 else 1) + NonBlankCount(ls[1..])
  }

  /**
   * What one loop iteration prints for `line`, given the `enumerate` index
   * and the counter `num`.
   */
  function FormatNext(mode: Numbering, index: nat, num: nat, line: string): OutLine {
    match mode
    case Unnumbered => Plain(line)
    case NumberAll => Numbered(index + 1, line)
    case NumberNonblank => if line == "" then Plain(line) else Numbered(num, line)
  }

  /**
   * The printed lines for the lines ls, built as the loop goes through
   * them: `index` is the `enumerate` index of ls[0] and `num` the counter's
   * value when ls[0] is reached; the counter moves past non-blank lines.
   */
  function FormatFrom(mode: Numbering, ls: seq<string>, index: nat, num: nat): (r: seq<OutLine>)
    ensures |r| == |ls|
  {
    if ls == [] then []
    else
      var next := if ls[0] == "" then num else num + 1;
      [FormatNext(mode, index, num, ls[0])] + FormatFrom(mode, ls[1..], index + 1, next)
  }

  /** The printed lines of one file: the index starts at 0 and the counter at 1. */
  function Format(mode: Numbering, ls: seq<string>): (r: seq<OutLine>)
    ensures |r| == |ls|
  {
    FormatFrom(mode, ls, 0, 1)
  }

  /** The text of each printed line. */
  function Rendered(os: seq<OutLine>): (r: seq<string>)
    ensures |r| == |os|
  {
    if os == [] then [] else [Render(os[0])] + Rendered(os[1..])
  }

  /**
   * The lines `lines()` yields for an opened stream: all of them when it
   * reaches end of file, and only the complete ones before a read error.
   */
  function StreamLines(data: string, fails: bool): seq<string> {
    SplitLines(if fails then Complete(data) else data)
  }

  /** What the loop over `lines()` prints for an opened stream: every formatted line, each with one '\n'. */
  function LinesOutput(mode: Numbering, data: string, fails: bool): string {
    JoinLines(Rendered(Format(mode, StreamLines(data, fails))))
  }

  /** What `run` prints for one file, whose `open` gave src; a read error aborts the run. */
  function FilePiece(mode: Numbering, name: string, src: Source): Emitted {
    match src
    case OpenError(reason) => Emitted([], "Failed to open " + name + ": " + reason + "\n", false)
    case Opened(data, fails) => Emitted(LinesOutput(mode, data, fails), [], fails)
  }

  function Pieces(cfg: Config, world: seq<Source>): (ps: seq<Emitted>)
    requires |world| == |cfg.files|
    ensures |ps| == |world|
  {
    seq(|world|, j requires 0 <= j < |world| => FilePiece(ModeOf(cfg), cfg.files[j], world[j]))
  }

  /**
   * `run`: the mode is chosen once from the flags, then every file is
   * printed in that mode; the first read error ends the run.
   */
  method Run(cfg: Config, world: seq<Source>) returns (result: Emitted)
    requires Matches(cfg.files, world)
    ensures result == RunPieces(Pieces(cfg, world))
  {
    hide LinesOutput;
    var mode := ModeOf(cfg);
    var out: string, err: string := [], [];
    ghost var ps := Pieces(cfg, world);
    var fileNum := 0;
    while fileNum < |cfg.files|
      invariant fileNum <= |cfg.files|
      invariant RunPieces(ps[..fileNum]) == Emitted(out, err, false)
    {
      var filename := cfg.files[fileNum];
      RunPiecesStep(ps, fileNum);
      match world[fileNum] {
        case OpenError(reason) =>
          err := err + "Failed to open " + filename + ": " + reason + "\n";
        case Opened(data, fails) =>
          var text, aborted := PrintLines(mode, data, fails);
          out := out + text;
          if aborted {
            StopAt(ps, fileNum);
            return Emitted(out, err, true);
          }
      }
      fileNum := fileNum + 1;
    }
    assert ps[..|cfg.files|] == ps;
    result := Emitted(out, err, false);
  }

  /**
   * The inner loop over `file.lines()`: each line is read, stripped of its
   * '\n', formatted and printed with one '\n'; `index` is `enumerate`'s
   * index and `num` the non-blank counter, both fresh for every file.
   */
  method PrintLines(mode: Numbering, data: string, fails: bool) returns (text: string, aborted: bool)
    ensures text == LinesOutput(mode, data, fails) && aborted == fails
  {
    ghost var want := LinesOutput(mode, data, fails);
    PrintStart(mode, data, fails);
    hide *;
    text := [];
    var pos := 0;
    var index := 0;
    var num := 1;
    while true
      invariant pos <= |data|
      invariant Printing(mode, data, fails, pos, index, num, text, want)
      decreases |data| - pos
    {
      var r := ReadLine(data[pos..], fails);
      if r.ReadFailed? {
        PrintFailed(mode, data, fails, pos, index, num, text, want);
        return text, true;
      } else if r.Eof? {
        PrintEnded(mode, data, fails, pos, index, num, text, want);
        return text, false;
      }
      var line := StripNewline(r.text);
      PrintStep(mode, data, fails, pos, index, num, text, want);
      text := text + Render(FormatNext(mode, index, num, line)) + "\n";
      pos := pos + |r.text|;
      index := index + 1;
      if line != "" {
        num := num + 1;
      }
    }
  }

  /**
   * The loop's state after it has read data[..pos]: what it has printed,
   * followed by what the remaining lines will print from this index and
   * counter on, is `want`, the file's whole output.
   */
  predicate Printing(mode: Numbering, data: string, fails: bool, pos: nat, index: nat, num: nat, text: string, want: string) {
    && pos <= |data|
    && text + JoinLines(Rendered(FormatFrom(mode, StreamLines(data[pos..], fails), index, num))) == want
  }

  lemma PrintStart(mode: Numbering, data: string, fails: bool)
    ensures Printing(mode, data, fails, 0, 0, 1, [], LinesOutput(mode, data, fails))
  {
    assert data[0..] == data;
  }

  /** One iteration that reads a line keeps Printing. */
  lemma PrintStep(mode: Numbering, data: string, fails: bool, pos: nat, index: nat, num: nat, text: string, want: string)
    requires Printing(mode, data, fails, pos, index, num, text, want)
    requires ReadLine(data[pos..], fails).Line?
    ensures var l := ReadLine(data[pos..], fails).text;
            var line := StripNewline(l);
            && pos + |l| <= |data|
            && Printing(mode, data, fails, pos + |l|, index + 1, num + (if line == "" then 0 else 1),
                     text + Render(FormatNext(mode, index, num, line)) + "\n", want)
  {
    var rest := data[pos..];
    var l := ReadLine(rest, fails).text;
    var line := StripNewline(l);
    LinesStep(rest, fails);
    assert rest[|l|..] == data[pos + |l|..];
    var tail := StreamLines(data[pos + |l|..], fails);
    var x := Render(FormatNext(mode, index, num, line));
    var ys := FormatFrom(mode, tail, index + 1, if line == "" then num else num + 1);
    var j := JoinLines(Rendered(ys));
    PrintOne(mode, line, tail, index, num);
    Regroup(text, x, j);
  }

  /** What is left to print, once the next line is known: that line's text and '\n', then the rest. */
  lemma PrintOne(mode: Numbering, line: string, tail: seq<string>, index: nat, num: nat)
    ensures JoinLines(Rendered(FormatFrom(mode, [line] + tail, index, num)))
            == Render(FormatNext(mode, index, num, line)) + "\n"
               + JoinLines(Rendered(FormatFrom(mode, tail, index + 1, if line == "" then num else num + 1)))
  {
    assert ([line] + tail)[1..] == tail;
    var o := FormatNext(mode, index, num, line);
    var os := FormatFrom(mode, tail, index + 1, if line == "" then num else num + 1);
    assert ([o] + os)[1..] == os;
    var rs := Rendered(os);
    assert ([Render(o)] + rs)[1..] == rs;
  }

  lemma Regroup(a: string, b: string, c: string)
    ensures a + (b + "\n" + c) == a + b + "\n" + c
  {
  }

  /** A read error at pos: nothing is left to print, and the run aborts. */
  lemma PrintFailed(mode: Numbering, data: string, fails: bool, pos: nat, index: nat, num: nat, text: string, want: string)
    requires Printing(mode, data, fails, pos, index, num, text, want)
    requires ReadLine(data[pos..], fails).ReadFailed?
    ensures fails && text == want
  {
    var rest := data[pos..];
    assert rest[..0] == [] && rest[0..] == rest;
    CompleteAt(rest, 0);
    assert text + [] == text;
  }

  /** End of file at pos: nothing is left to print. */
  lemma PrintEnded(mode: Numbering, data: string, fails: bool, pos: nat, index: nat, num: nat, text: string, want: string)
    requires Printing(mode, data, fails, pos, index, num, text, want)
    requires ReadLine(data[pos..], fails).Eof?
    ensures !fails && text == want
  {
    assert text + [] == text;
  }

  /**
   * One successful `read_line` on the unread part rest: the lines still to
   * come are that line, stripped, then the lines after it.
   */
  lemma LinesStep(rest: string, fails: bool)
    requires ReadLine(rest, fails).Line?
    ensures var l := ReadLine(rest, fails).text;
            StreamLines(rest, fails) == [StripNewline(l)] + StreamLines(rest[|l|..], fails)
  {
    var l := ReadLine(rest, fails).text;
    var after := rest[|l|..];
    LineEndSpec(rest);
    FirstLineIsWhole(rest);
    assert rest == l + after;
    if fails {
      NewlineCountAppend(l, after);
      HeadLinesUnfold(rest, NewlineCount(rest));
      assert Complete(rest) == l + Complete(after);
      SplitAfterLine(l, Complete(after));
    }
  }

  // ---------------------------------------------------------------------
  // What the formatted output says about the input lines

  /**
   * One printed line keeps the input line as its text; it is numbered in
   * --number mode, and in --number-nonblank mode when the line is not
   * empty; the number is the index + 1 or the counter respectively.
   */
  lemma FormatNextSpec(mode: Numbering, index: nat, num: nat, line: string)
    ensures var o := FormatNext(mode, index, num, line);
            && o.text == line
            && (o.Numbered? <==> mode == NumberAll || (mode == NumberNonblank && line != ""))
            && (o.Numbered? && mode == NumberAll ==> o.num == index + 1)
            && (o.Numbered? && mode == NumberNonblank ==> o.num == num)
  {
  }

  /**
   * The lines printed for ls, line by line: line i is formatted with the
   * index i and the counter 1 + the non-blank lines before it.
   */
  lemma FormatAt(mode: Numbering, ls: seq<string>, i: nat)
    requires i < |ls|
    ensures Format(mode, ls)[i] == FormatNext(mode, i, 1 + NonBlankCount(ls[..i]), ls[i])
  {
    FormatFromAt(mode, ls, 0, 1, i);
  }

  lemma {:induction false} FormatFromAt(mode: Numbering, ls: seq<string>, index: nat, num: nat, i: nat)
    requires i < |ls|
    ensures FormatFrom(mode, ls, index, num)[i] == FormatNext(mode, index + i, num + NonBlankCount(ls[..i]), ls[i])
    decreases i
  {
    if i == 0 {
      assert ls[..0] == [];
    } else {
      var next := if ls[0] == "" then num else num + 1;
      FormatFromAt(mode, ls[1..], index + 1, next, i - 1);
      NonBlankCountFront(ls, i);
    }
  }

  /** Counting the first i lines: the first one, then i - 1 lines after it. */
  lemma NonBlankCountFront(ls: seq<string>, i: nat)
    requires 0 < i <= |ls|
    ensures NonBlankCount(ls[..i]) == (if ls[0] == "" then 0 else 1) + NonBlankCount(ls[1..][..i - 1])
  {
    assert ls[..i][1..] == ls[1..][..i - 1];
  }

  /** With --number, line i (counting from 0) of a file is printed with the number i + 1. */
  lemma NumberAllAt(ls: seq<string>, i: nat)
    requires i < |ls|
    ensures Format(NumberAll, ls)[i] == Numbered(i + 1, ls[i])
  {
    FormatAt(NumberAll, ls, i);
  }

  /**
   * With --number-nonblank, an empty line is printed as it is; any other
   * line carries 1 + the number of non-blank lines before it.
   */
  lemma NumberNonblankAt(ls: seq<string>, i: nat)
    requires i < |ls|
    ensures ls[i] == "" ==> Format(NumberNonblank, ls)[i] == Plain("")
    ensures ls[i] != "" ==> Format(NumberNonblank, ls)[i] == Numbered(1 + NonBlankCount(ls[..i]), ls[i])
  {
    FormatAt(NumberNonblank, ls, i);
  }

  /** The counter moves only on non-blank lines, so the non-blank lines are numbered 1, 2, 3, ... without gaps. */
  lemma NonBlankCountGrows(ls: seq<string>, i: nat)
    requires i < |ls|
    ensures NonBlankCount(ls[..i + 1]) == NonBlankCount(ls[..i]) + (if ls[i] == "" then 0 else 1)
  {
    assert ls[..i + 1] == ls[..i] + [ls[i]];
    NonBlankCountSnoc(ls[..i], ls[i]);
  }

  lemma {:induction false} NonBlankCountSnoc(ls: seq<string>, line: string)
    ensures NonBlankCount(ls + [line]) == NonBlankCount(ls) + (if line == "" then 0 else 1)
  {
    if ls != [] {
      assert (ls + [line])[1..] == ls[1..] + [line];
      NonBlankCountSnoc(ls[1..], line);
    } else {
      assert ls + [line] == [line];
    }
  }

  /** Without a flag every line is printed unchanged. */
  lemma UnnumberedIsIdentity(ls: seq<string>)
    ensures Rendered(Format(Unnumbered, ls)) == ls
  {
    UnnumberedFrom(ls, 0, 1);
  }

  lemma {:induction false} UnnumberedFrom(ls: seq<string>, index: nat, num: nat)
    ensures Rendered(FormatFrom(Unnumbered, ls, index, num)) == ls
    decreases |ls|
  {
    if ls != [] {
      var os := FormatFrom(Unnumbered, ls[1..], index + 1, if ls[0] == "" then num else num + 1);
      UnnumberedFrom(ls[1..], index + 1, if ls[0] == "" then num else num + 1);
      assert ([Plain(ls[0])] + os)[1..] == os;
      assert ls == [ls[0]] + ls[1..];
    }
  }

  /**
   * Without a flag, a file read to its end is printed byte for byte,
   * with one '\n' added when its last line has none.
   */
  lemma UnnumberedOutput(data: string)
    ensures LinesOutput(Unnumbered, data, false) == if EndsLine(data) then data else data + "\n"
  {
    UnnumberedIsIdentity(SplitLines(data));
    JoinSplit(data);
  }

  lemma PadHasNoNewline(n: nat)
    ensures '\n' !in Pad6(n)
  {
    var p := Pad6(n);
    var d := Decimal(n);
    Pad6Spec(n);
    DecimalDigits(n);
    forall i | 0 <= i < |p|
      ensures p[i] != '\n'
    {
      if i >= |p| - |d| {
        assert p[i] == d[i - (|p| - |d|)];
      }
    }
  }

  /** A printed line holds a '\n' only where its input line did. */
  lemma RenderHasNoNewline(o: OutLine)
    requires '\n' !in o.text
    ensures '\n' !in Render(o)
  {
    if o.Numbered? {
      PadHasNoNewline(o.num);
    }
  }

  lemma {:induction false} RenderedHasNoNewline(mode: Numbering, ls: seq<string>, index: nat, num: nat)
    requires forall i :: 0 <= i < |ls| ==> '\n' !in ls[i]
    ensures forall i :: 0 <= i < |ls| ==> '\n' !in Rendered(FormatFrom(mode, ls, index, num))[i]
    decreases |ls|
  {
    if ls != [] {
      var o := FormatNext(mode, index, num, ls[0]);
      var os := FormatFrom(mode, ls[1..], index + 1, if ls[0] == "" then num else num + 1);
      RenderedHasNoNewline(mode, ls[1..], index + 1, if ls[0] == "" then num else num + 1);
      RenderHasNoNewline(o);
      assert ([o] + os)[1..] == os;
      var rs := Rendered([o] + os);
      assert rs == [Render(o)] + Rendered(os);
      forall i | 0 <= i < |ls|
        ensures '\n' !in rs[i]
      {
        if 0 < i {
          assert rs[i] == Rendered(os)[i - 1];
          assert ls[1..][i - 1] == ls[i];
        }
      }
    }
  }

  /**
   * Every line the file yields becomes exactly one printed line: reading
   * the output back as lines gives the rendered lines, one per input line.
   */
  lemma OutputLines(mode: Numbering, data: string, fails: bool)
    ensures SplitLines(LinesOutput(mode, data, fails)) == Rendered(Format(mode, StreamLines(data, fails)))
  {
    var ls := StreamLines(data, fails);
    SplitLinesHaveNoNewline(if fails then Complete(data) else data);
    RenderedHasNoNewline(mode, ls, 0, 1);
    SplitJoin(Rendered(Format(mode, ls)));
  }

  /** The i-th rendered line is the rendering of the i-th printed line. */
  lemma {:induction false} RenderedAt(os: seq<OutLine>, i: nat)
    requires i < |os|
    ensures Rendered(os)[i] == Render(os[i])
    decreases i
  {
    if 0 < i {
      RenderedAt(os[1..], i - 1);
    }
  }

  /**
   * With --number, line i (counting from 0) of a file's printed text is the
   * number i + 1 in six columns, a tab, and line i of the file.
   */
  lemma NumberAllOutputAt(data: string, fails: bool, i: nat)
    requires i < |StreamLines(data, fails)|
    ensures var out := SplitLines(LinesOutput(NumberAll, data, fails));
            i < |out| && out[i] == Pad6(i + 1) + "\t" + StreamLines(data, fails)[i]
  {
    var ls := StreamLines(data, fails);
    OutputLines(NumberAll, data, fails);
    NumberAllAt(ls, i);
    RenderedAt(Format(NumberAll, ls), i);
  }

  /**
   * With --number-nonblank, an empty line i of a file is printed empty, and
   * any other line i as 1 + the non-blank lines before it in six columns,
   * a tab, and the line.
   */
  lemma NumberNonblankOutputAt(data: string, fails: bool, i: nat)
    requires i < |StreamLines(data, fails)|
    ensures var ls := StreamLines(data, fails);
            var out := SplitLines(LinesOutput(NumberNonblank, data, fails));
            && i < |out|
            && (ls[i] == "" ==> out[i] == "")
            && (ls[i] != "" ==> out[i] == Pad6(1 + NonBlankCount(ls[..i])) + "\t" + ls[i])
  {
    var ls := StreamLines(data, fails);
    OutputLines(NumberNonblank, data, fails);
    NumberNonblankAt(ls, i);
    RenderedAt(Format(NumberNonblank, ls), i);
  }

  /** With --number, ["a", "", "b"] is printed as 1, 2 and 3, the empty line included. */
  lemma NumberAllExample()
    ensures Format(NumberAll, ["a", "", "b"]) == [Numbered(1, "a"), Numbered(2, ""), Numbered(3, "b")]
  {
    var ls := ["a", "", "b"];
    NumberAllAt(ls, 0);
    NumberAllAt(ls, 1);
    NumberAllAt(ls, 2);
  }

  /** With --number-nonblank, ["a", "", "b"] is printed as 1, the bare empty line, and 2. */
  lemma NumberNonblankExample()
    ensures Format(NumberNonblank, ["a", "", "b"]) == [Numbered(1, "a"), Plain(""), Numbered(2, "b")]
  {
    var ls := ["a", "", "b"];
    NumberNonblankAt(ls, 0);
    NumberNonblankAt(ls, 1);
    NumberNonblankAt(ls, 2);
    assert ls[..0] == [];
    assert ls[..2] == ["a", ""];
    assert NonBlankCount(["a", ""]) == 1 by {
      assert ["a", ""][1..] == [""];
      assert [""][1..] == [];
    }
  }

  /** A number is right-aligned in six columns, then a tab, then the line. */
  lemma RenderExamples()
    ensures Render(Numbered(1, "a")) == "     1\ta"
    ensures Render(Numbered(123456, "x")) == "123456\tx"
    ensures Render(Plain("")) == ""
  {
    assert Decimal(1) == "1";
    assert Spaces(5) == "     ";
    assert Decimal(123456) == "123456";
  }

  /** A line of blanks is not the empty line: --number-nonblank numbers it. */
  lemma WhitespaceIsNonBlank()
    ensures Format(NumberNonblank, [" \t "]) == [Numbered(1, " \t ")]
  {
    NumberNonblankAt([" \t "], 0);
    assert [" \t "][..0] == [];
  }

  // ---------------------------------------------------------------------
  // Properties of a whole run

  /** In a numbered mode, output for lines whose first line is not empty starts with that line as number 1. */
  lemma FirstLineIsNumberOne(mode: Numbering, ls: seq<string>)
    requires mode != Unnumbered && ls != [] && ls[0] != ""
    ensures Pad6(1) + "\t" + ls[0] + "\n" <= JoinLines(Rendered(Format(mode, ls)))
  {
    var tail := ls[1..];
    assert ls == [ls[0]] + tail;
    PrintOne(mode, ls[0], tail, 0, 1);
    var p := Render(FormatNext(mode, 0, 1, ls[0])) + "\n";
    var rest := JoinLines(Rendered(FormatFrom(mode, tail, 1, 2)));
    assert p == Pad6(1) + "\t" + ls[0] + "\n";
    assert (p + rest)[..|p|] == p;
  }

  /**
   * Numbering starts again at 1 in every file: whatever came before, an
   * opened file whose first line is not empty has it printed as number 1.
   */
  lemma NumberingRestartsPerFile(cfg: Config, world: seq<Source>, j: nat)
    requires Matches(cfg.files, world) && j < |world| && world[j].Opened? && ModeOf(cfg) != Unnumbered
    requires var ls := StreamLines(world[j].data, world[j].fails); ls != [] && ls[0] != ""
    ensures var ls := StreamLines(world[j].data, world[j].fails);
            Pad6(1) + "\t" + ls[0] + "\n" <= Pieces(cfg, world)[j].out
  {
    FirstLineIsNumberOne(ModeOf(cfg), StreamLines(world[j].data, world[j].fails));
  }

  /**
   * A file that cannot be opened is reported as "Failed to open name:
   * reason" on stderr, prints nothing, and the run goes on.
   */
  lemma OpenFailureIsReported(cfg: Config, world: seq<Source>, j: nat)
    requires Matches(cfg.files, world) && j < |world| && world[j].OpenError?
    ensures Pieces(cfg, world)[j] == Emitted([], "Failed to open " + cfg.files[j] + ": " + world[j].reason + "\n", false)
  {
  }

  /** `run` returns an error exactly when some opened file has a read error. */
  lemma RunFailsIffReadFails(cfg: Config, world: seq<Source>)
    requires Matches(cfg.files, world)
    ensures RunPieces(Pieces(cfg, world)).aborted <==> exists j :: 0 <= j < |world| && world[j].Opened? && world[j].fails
  {
    var ps := Pieces(cfg, world);
    RunAbortedIff(ps);
    assert forall j :: 0 <= j < |world| ==> (ps[j].aborted <==> world[j].Opened? && world[j].fails);
  }
}
