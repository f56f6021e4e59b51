/**
 * The earlier draft of the head clone. Its options, validation and line
 * mode are those of the final version; it differs in two places: the
 * header is "==> name <==" with no blank line before it and is left out
 * for the names "-" and "", and the byte-mode branch does nothing.
 */
module HeadDraft {
  import opened Text
  import opened Results
  import opened Streams
  import Head

  /** The draft's header rule: several files configured, and a name other than "-" and "". */
  function DraftHeader(numFiles: nat, name: string): (h: string)
    ensures h != [] <==> name != "-" && name != "" && 1 < numFiles
    ensures h != [] ==> h == "==> " + name + " <==\n"
  {
    if name != "-" && name != "" && 1 < numFiles then "==> " + name + " <==\n" else ""
  }

  /** What the draft's `run` prints for file number fileNum, whose `open` gave src. */
  function FilePiece(cfg: Head.Config, fileNum: nat, src: Source): Emitted
    requires fileNum < |cfg.files|
  {
    var name := cfg.files[fileNum];
    match src
    case OpenError(reason) => Emitted([], name + ": " + reason + "\n", false)
    case Opened(data, fails) =>
      var body := if cfg.bytes.Some? then Nothing else LineModeRead(data, fails, cfg.lines);
      Emitted(DraftHeader(|cfg.files|, name) + body.out, [], body.aborted)
  }

  function Pieces(cfg: Head.Config, world: seq<Source>): (ps: seq<Emitted>)
    requires |world| == |cfg.files|
    ensures |ps| == |world|
  {
    seq(|world|, j requires 0 <= j < |world| => FilePiece(cfg, j, world[j]))
  }

  /**
   * The draft's `run`: for each configured file, report an open failure
   * on stderr, or print the header and, without a byte limit, copy the
   * first lines; a failed `read_line` ends the run.
   */
  method Run(cfg: Head.Config, world: seq<Source>) returns (result: Emitted)
    requires Matches(cfg.files, world)
    ensures result == RunPieces(Pieces(cfg, world))
  {
    hide LineModeRead;
    var out: string, err: string := [], [];
    ghost var ps := Pieces(cfg, world);
    var fileNum := 0;
    while fileNum < |cfg.files|
      invariant fileNum <= |cfg.files|
      invariant RunPieces(ps[..fileNum]) == Emitted(out, err, false)
    {
      var filename := cfg.files[fileNum];
      RunPiecesStep(ps, fileNum);
      match world[fileNum] {
        case OpenError(reason) =>
          err := err + filename + ": " + reason + "\n";
        case Opened(data, fails) =>
          var text, aborted := DraftFile(cfg, fileNum, data, fails);
          out := out + text;
          if aborted {
            StopAt(ps, fileNum);
            return Emitted(out, err, true);
          }
      }
      fileNum := fileNum + 1;
    }
    assert ps[..|cfg.files|] == ps;
    result := Emitted(out, err, false);
  }

  /**
   * The `Ok(file)` arm of the draft's `run`: the header, then the line-mode
   * copy when no byte limit is set; `aborted` is the `?` on a failed read.
   */
  method DraftFile(cfg: Head.Config, fileNum: nat, data: string, fails: bool) returns (text: string, aborted: bool)
    requires fileNum < |cfg.files|
    ensures Emitted(text, [], aborted) == FilePiece(cfg, fileNum, Opened(data, fails))
  {
    hide LineModeRead;
    var filename := cfg.files[fileNum];
    text := [];
    if filename != "-" && filename != "" && 1 < |cfg.files| {
      text := text + "==> " + filename + " <==\n";
    }
    aborted := false;
    match cfg.bytes {
      case None =>
        var lines;
        lines, aborted := CopyLines(data, fails, cfg.lines);
        text := text + lines;
      case Some(_) =>
    }
  }

  /**
   * With a byte limit, an opened file contributes at most its header: no
   * content, nothing on stderr, and its reading never fails.
   */
  lemma ByteModePrintsOnlyHeaders(cfg: Head.Config, world: seq<Source>, j: nat)
    requires Matches(cfg.files, world) && j < |world| && world[j].Opened? && cfg.bytes.Some?
    ensures Pieces(cfg, world)[j] == Emitted(DraftHeader(|cfg.files|, cfg.files[j]), [], false)
  {
  }

  /**
   * A file that cannot be opened is reported on stderr as "name: reason",
   * prints nothing on stdout and does not stop the run, with or without a
   * byte limit.
   */
  lemma OpenFailureIsReported(cfg: Head.Config, world: seq<Source>, j: nat)
    requires Matches(cfg.files, world) && j < |world| && world[j].OpenError?
    ensures Pieces(cfg, world)[j] == Emitted([], cfg.files[j] + ": " + world[j].reason + "\n", false)
  {
  }

  /**
   * The headers a byte-limited draft run prints when numFiles files are
   * configured: one per opened file whose name is not "-" or "".
   */
  function Headers(numFiles: nat, files: seq<string>, world: seq<Source>): string
    requires |world| == |files|
  {
    if world == [] then []
    else
      var k := |world| - 1;
      Headers(numFiles, files[..k], world[..k])
        + (if world[k].Opened? then DraftHeader(numFiles, files[k]) else [])
  }

  /** With a byte limit the draft never aborts, and its stdout is only headers. */
  lemma ByteModeRunIsHeaders(cfg: Head.Config, world: seq<Source>)
    requires Matches(cfg.files, world) && cfg.bytes.Some?
    ensures !RunPieces(Pieces(cfg, world)).aborted
    ensures RunPieces(Pieces(cfg, world)).out == Headers(|cfg.files|, cfg.files, world)
  {
    var ps := Pieces(cfg, world);
    ByteModePrefix(cfg, world, |world|);
    assert ps[..|world|] == ps;
    assert cfg.files[..|world|] == cfg.files && world[..|world|] == world;
  }

  lemma {:induction false} ByteModePrefix(cfg: Head.Config, world: seq<Source>, k: nat)
    requires Matches(cfg.files, world) && cfg.bytes.Some? && k <= |world|
    ensures !RunPieces(Pieces(cfg, world)[..k]).aborted
    ensures RunPieces(Pieces(cfg, world)[..k]).out == Headers(|cfg.files|, cfg.files[..k], world[..k])
  {
    if 0 < k {
      var ps := Pieces(cfg, world);
      ByteModePrefix(cfg, world, k - 1);
      RunPiecesStep(ps, k - 1);
      assert cfg.files[..k][..k - 1] == cfg.files[..k - 1];
      assert world[..k][..k - 1] == world[..k - 1];
      if world[k - 1].Opened? {
        ByteModePrintsOnlyHeaders(cfg, world, k - 1);
      }
    }
  }

  /** The line-mode content of a file is the same as the final version's; only the header differs. */
  lemma LineModeAgreesWithFinal(cfg: Head.Config, world: seq<Source>, j: nat)
    requires Matches(cfg.files, world) && j < |world| && cfg.bytes.None?
    ensures Pieces(cfg, world)[j].err == Head.Pieces(cfg, world)[j].err
    ensures Pieces(cfg, world)[j].aborted == Head.Pieces(cfg, world)[j].aborted
    ensures world[j].Opened? ==>
              && Pieces(cfg, world)[j].out
                   == DraftHeader(|cfg.files|, cfg.files[j]) + LineModeRead(world[j].data, world[j].fails, cfg.lines).out
              && Head.Pieces(cfg, world)[j].out
                   == Head.Header(|cfg.files|, j, cfg.files[j]) + LineModeRead(world[j].data, world[j].fails, cfg.lines).out
  {
  }

  /** With a single file and no byte limit, the draft and the final version print the same. */
  lemma SingleFileAgreesWithFinal(cfg: Head.Config, world: seq<Source>)
    requires Matches(cfg.files, world) && |cfg.files| <= 1 && cfg.bytes.None?
    ensures RunPieces(Pieces(cfg, world)) == RunPieces(Head.Pieces(cfg, world))
  {
    assert Pieces(cfg, world) == Head.Pieces(cfg, world);
  }

  /**
   * The draft's header rule, as opposed to the final one: "==> name <=="
   * with never a blank line before it, and no header at all for "-" or ""
   * even among several files.
   */
  lemma HeaderRule(cfg: Head.Config, world: seq<Source>, j: nat)
    requires Matches(cfg.files, world) && j < |world| && world[j].Opened?
    ensures (|cfg.files| <= 1 || cfg.files[j] == "-" || cfg.files[j] == "")
              ==> Pieces(cfg, world)[j].out
                  == (if cfg.bytes.Some? then [] else LineModeRead(world[j].data, world[j].fails, cfg.lines).out)
    ensures (1 < |cfg.files| && cfg.files[j] != "-" && cfg.files[j] != "")
              ==> "==> " + cfg.files[j] + " <==\n" <= Pieces(cfg, world)[j].out
  {
    var h := DraftHeader(|cfg.files|, cfg.files[j]);
    assert Pieces(cfg, world)[j].out[..|h|] == h;
  }
}
