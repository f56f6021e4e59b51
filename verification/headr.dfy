/**
 * headr, the final version of the head clone: for every configured file,
 * in order, print a header when more than one file is configured, then
 * either the first `bytes` bytes (when --bytes is given) or the first
 * `lines` lines. A file that cannot be opened is reported on stderr and
 * skipped; a read error ends the whole run.
 */
module Head {
  import opened Text
  import opened Results
  import opened Streams
  import opened PositiveInt

  /** The validated options; `lines` always has a value (clap's default "10"). */
  datatype Config = Config(files: seq<string>, lines: nat, bytes: Option<nat>)

  /** The value clap supplies for --lines when it is not given. */
  const DefaultLines: string := "10"

  function LinesValueError(value: string): string {
    "error: invalid value '" + value + "' for '--lines <LINES>': invalid digit found in string"
  }

  function BytesValueError(value: string): string {
    "invalid value '" + value + "' for '--bytes <BYTES>': invalid digit found in string"
  }

  /**
   * The part of `get_args` after clap has matched the arguments: the
   * --lines value is validated first, then the --bytes value if there is
   * one; the first failure becomes the run's error message.
   */
  function ConfigFromArgs(files: seq<string>, linesValue: string, bytesValue: Option<string>): (r: Result<Config, string>)
    ensures r.Ok? ==> r.value.files == files && 0 < r.value.lines
    ensures r.Ok? ==> Some(r.value.lines) == ParseUsize(linesValue)
    ensures r.Ok? ==> (r.value.bytes.Some? <==> bytesValue.Some?)
    ensures r.Ok? && r.value.bytes.Some? ==> 0 < r.value.bytes.value && Some(r.value.bytes.value) == ParseUsize(bytesValue.value)
    ensures ParsePositiveInt(linesValue).Err? ==> r == Err(LinesValueError(linesValue))
    ensures (ParsePositiveInt(linesValue).Ok? && bytesValue.Some? && ParsePositiveInt(bytesValue.value).Err?)
              ==> r == Err(BytesValueError(bytesValue.value))
    ensures (ParsePositiveInt(linesValue).Ok? && (bytesValue.None? || ParsePositiveInt(bytesValue.value).Ok?))
              ==> r.Ok?
  {
    match ParsePositiveInt(linesValue)
    case Err(e) => Err(LinesValueError(e))
    case Ok(lines) =>
      match bytesValue
      case None => Ok(Config(files, lines, None))
      case Some(b) =>
        match ParsePositiveInt(b)
        case Err(e) => Err(BytesValueError(e))
        case Ok(bytes) => Ok(Config(files, lines, Some(bytes)))
  }

  /** `--lines 0` and `--lines abc` are refused, with the value in the message, before any file is read. */
  lemma InvalidOptionMessages()
    ensures ConfigFromArgs(["a"], "0", None) == Err(LinesValueError("0"))
    ensures ConfigFromArgs(["a"], "abc", None) == Err(LinesValueError("abc"))
    ensures ConfigFromArgs(["a"], DefaultLines, Some("0")) == Err(BytesValueError("0"))
    ensures ConfigFromArgs(["a"], DefaultLines, Some("+5")) == Ok(Config(["a"], 10, Some(5)))
    ensures ConfigFromArgs(["a"], DefaultLines, None) == Ok(Config(["a"], 10, None))
  {
    MalformedOrZeroIsRejected("0");
    assert DigitsValue("0") == 0 by {
      assert "0"[..0] == [];
    }
    assert !IsDigit("abc"[0]);
    MalformedOrZeroIsRejected("abc");
    DecimalIsAccepted(10);
    DecimalIsAccepted(5);
    assert Decimal(10) == DefaultLines && "+" + Decimal(5) == "+5";
  }

  /**
   * The header printed before an opened file's content: only when more
   * than one file is configured, and with a blank line in front for every
   * file after the first position in the list.
   */
  function Header(numFiles: nat, fileNum: nat, name: string): string {
    if 1 < numFiles then (if 0 < fileNum then "\n" else "") + "==> " + name + " <==\n" else ""
  }

  /**
   * A header is printed only among several files; it is one or two whole
   * lines, and it starts with a blank line exactly after the first position.
   */
  lemma HeaderShape(numFiles: nat, fileNum: nat, name: string)
    ensures var h := Header(numFiles, fileNum, name);
            && (h != [] <==> 1 < numFiles)
            && EndsLine(h)
            && ((h != [] && h[0] == '\n') <==> 1 < numFiles && 0 < fileNum)
  {
  }

  /**
   * One `take(n).read` into a buffer of n bytes, printed: the next
   * min(n, |data|) bytes, or the stream's error when it has none to give.
   */
  function ByteModeRead(data: string, fails: bool, n: nat): Emitted {
    if 0 < n && data == [] && fails then Emitted([], [], true)
    else Emitted(data[..Min(n, |data|)], [], false)
  }

  /**
   * The byte read prints a prefix of the content of length min(n, size),
   * and fails only when the stream has nothing to deliver and errors.
   */
  lemma ByteModeReadSpec(data: string, fails: bool, n: nat)
    ensures var r := ByteModeRead(data, fails, n);
            && r.err == []
            && (r.aborted <==> 0 < n && data == [] && fails)
            && r.out <= data && |r.out| == Min(n, |data|)
  {
  }

  /** What `run` prints for file number fileNum, whose `open` gave src. */
  function FilePiece(cfg: Config, fileNum: nat, src: Source): Emitted
    requires fileNum < |cfg.files|
  {
    var name := cfg.files[fileNum];
    match src
    case OpenError(reason) => Emitted([], name + ": " + reason + "\n", false)
    case Opened(data, fails) =>
      var body := if cfg.bytes.Some? then ByteModeRead(data, fails, cfg.bytes.value)
                  else LineModeRead(data, fails, cfg.lines);
      Emitted(Header(|cfg.files|, fileNum, name) + body.out, [], body.aborted)
  }

  function Pieces(cfg: Config, world: seq<Source>): (ps: seq<Emitted>)
    requires |world| == |cfg.files|
    ensures |ps| == |world|
  {
    seq(|world|, j requires 0 <= j < |world| => FilePiece(cfg, j, world[j]))
  }

  /**
   * `run`: loops over the configured files and prints what FilePiece
   * describes for each, stopping at the first read error.
   */
  method Run(cfg: Config, world: seq<Source>) returns (result: Emitted)
    requires Matches(cfg.files, world)
    ensures result == RunPieces(Pieces(cfg, world))
  {
    hide LineModeRead, ByteModeRead, Header;
    var out: string, err: string := [], [];
    var numFiles := |cfg.files|;
    ghost var ps := Pieces(cfg, world);
    var fileNum := 0;
    while fileNum < numFiles
      invariant fileNum <= numFiles
      invariant RunPieces(ps[..fileNum]) == Emitted(out, err, false)
    {
      var filename := cfg.files[fileNum];
      RunPiecesStep(ps, fileNum);
      match world[fileNum] {
        case OpenError(reason) =>
          err := err + filename + ": " + reason + "\n";
        case Opened(data, fails) =>
          var text, aborted := HeadFile(cfg, fileNum, data, fails);
          out := out + text;
          if aborted {
            StopAt(ps, fileNum);
            return Emitted(out, err, true);
          }
      }
      fileNum := fileNum + 1;
    }
    assert ps[..numFiles] == ps;
    result := Emitted(out, err, false);
  }

  /**
   * The `Ok(file)` arm of `run`: the header, then the byte-mode or the
   * line-mode copy; `aborted` is the `?` on a failed read.
   */
  method HeadFile(cfg: Config, fileNum: nat, data: string, fails: bool) returns (text: string, aborted: bool)
    requires fileNum < |cfg.files|
    ensures Emitted(text, [], aborted) == FilePiece(cfg, fileNum, Opened(data, fails))
  {
    hide LineModeRead;
    text := [];
    if 1 < |cfg.files| {
      text := text + (if 0 < fileNum then "\n" else "") + "==> " + cfg.files[fileNum] + " <==\n";
    }
    assert text == Header(|cfg.files|, fileNum, cfg.files[fileNum]);
    if cfg.bytes.Some? {
      var numBytes := cfg.bytes.value;
      var buffer := new char[numBytes];
      var bytesRead := ReadInto(data, fails, buffer);
      if bytesRead.None? {
        return text, true;
      }
      text := text + buffer[..bytesRead.value];
      aborted := false;
    } else {
      var lines;
      lines, aborted := CopyLines(data, fails, cfg.lines);
      text := text + lines;
    }
  }

  /** Whether reading src fails within what `run` reads of it. */
  predicate ReadFails(cfg: Config, src: Source) {
    && src.Opened?
    && src.fails
    && if cfg.bytes.Some? then 0 < cfg.bytes.value && src.data == []
       else NewlineCount(src.data) < cfg.lines
  }

  /**
   * `run` returns an error exactly when some opened file fails to read
   * within its limit; a file that cannot be opened never ends the run.
   */
  lemma RunFailsIffReadFails(cfg: Config, world: seq<Source>)
    requires Matches(cfg.files, world)
    ensures RunPieces(Pieces(cfg, world)).aborted <==> exists j :: 0 <= j < |world| && ReadFails(cfg, world[j])
  {
    var ps := Pieces(cfg, world);
    RunAbortedIff(ps);
    assert forall j :: 0 <= j < |world| ==> (ps[j].aborted <==> ReadFails(cfg, world[j]));
  }

  /**
   * A file that cannot be opened is reported as "name: reason" on stderr,
   * gets no header and no output, and the run goes on with the next file.
   */
  lemma OpenFailureIsReported(cfg: Config, world: seq<Source>, j: nat)
    requires Matches(cfg.files, world) && j < |world| && world[j].OpenError?
    ensures Pieces(cfg, world)[j] == Emitted([], cfg.files[j] + ": " + world[j].reason + "\n", false)
  {
  }

  /**
   * The header of the j-th file depends only on how many files are
   * configured and on j, not on whether earlier files could be opened:
   * "==> name <==" when there are several, after a blank line when j > 0.
   */
  lemma HeaderRule(cfg: Config, world: seq<Source>, j: nat)
    requires Matches(cfg.files, world) && j < |world| && world[j].Opened?
    ensures 1 < |cfg.files| && 0 < j ==> "\n==> " + cfg.files[j] + " <==\n" <= Pieces(cfg, world)[j].out
    ensures 1 < |cfg.files| && j == 0 ==> "==> " + cfg.files[j] + " <==\n" <= Pieces(cfg, world)[j].out
    ensures |cfg.files| <= 1 ==> Pieces(cfg, world)[j].out
                                 == (if cfg.bytes.Some? then ByteModeRead(world[j].data, world[j].fails, cfg.bytes.value)
                                     else LineModeRead(world[j].data, world[j].fails, cfg.lines)).out
  {
    var h := Header(|cfg.files|, j, cfg.files[j]);
    var out := Pieces(cfg, world)[j].out;
    assert out[..|h|] == h;
  }

  /**
   * With a byte limit b, an opened file contributes its header and then a
   * prefix of its content of length min(b, |content|); the line count plays
   * no part.
   */
  lemma ByteModeOutput(cfg: Config, world: seq<Source>, j: nat, otherLines: nat)
    requires Matches(cfg.files, world) && j < |world| && world[j].Opened? && cfg.bytes.Some?
    requires !Pieces(cfg, world)[j].aborted
    ensures var h := Header(|cfg.files|, j, cfg.files[j]);
            var out := Pieces(cfg, world)[j].out;
            && h <= out
            && out[|h|..] <= world[j].data
            && |out[|h|..]| == Min(cfg.bytes.value, |world[j].data|)
    ensures Pieces(cfg, world)[j] == Pieces(cfg.(lines := otherLines), world)[j]
  {
    var h := Header(|cfg.files|, j, cfg.files[j]);
    var out := Pieces(cfg, world)[j].out;
    assert out[|h|..] == world[j].data[..Min(cfg.bytes.value, |world[j].data|)];
  }

  /**
   * Without a byte limit, an opened file that reads without error
   * contributes its header and then the prefix of its content that ends
   * right after the n-th '\n', or all of it when it has fewer newlines.
   */
  lemma LineModeOutput(cfg: Config, world: seq<Source>, j: nat)
    requires Matches(cfg.files, world) && j < |world| && world[j].Opened? && cfg.bytes.None?
    requires !Pieces(cfg, world)[j].aborted
    ensures var h := Header(|cfg.files|, j, cfg.files[j]);
            var out := Pieces(cfg, world)[j].out;
            var data := world[j].data;
            var body := out[|h|..];
            && h <= out
            && body <= data
            && (|| (NewlineCount(body) == cfg.lines && EndsLine(body))
                || (body == data && NewlineCount(data) < cfg.lines))
            && (body != data ==> NewlineCount(body) == cfg.lines && EndsLine(body))
  {
    var h := Header(|cfg.files|, j, cfg.files[j]);
    var out := Pieces(cfg, world)[j].out;
    var data := world[j].data;
    var body := HeadLines(data, cfg.lines);
    assert out == h + body;
    assert out[|h|..] == body;
    HeadLinesPrefix(data, cfg.lines);
    HeadLinesCount(data, cfg.lines);
  }
}
