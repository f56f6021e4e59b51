/** Option and Result, for the values the programs wrap in `Option` and `MyResult`. */
module Results {
  datatype Option<T> = None | Some(value: T)

  datatype Result<T, E> = Ok(value: T) | Err(error: E)
}

/**
 * Input sources and the output of a run, shared by the three programs.
 *
 * Opening a source is not modelled: each configured file comes with the
 * outcome of `open` for it. Printing is modelled by appending to the
 * stdout and stderr text of an `Emitted` value.
 */
module Streams {
  import opened Text
  import opened Results

  /**
   * What opening one configured file gives: the error `open` reported (its
   * text is opaque here), or a stream. The stream delivers `data`; after
   * that it reports end of file or, when `fails`, an I/O error for any read
   * that needs more than `data`.
   */
  datatype Source = OpenError(reason: string) | Opened(data: string, fails: bool)

  /**
   * The outcomes belong to the configured files one to one, and "-" is
   * standard input, which `open` never fails to open.
   */
  predicate Matches(files: seq<string>, world: seq<Source>) {
    && |world| == |files|
    && forall j :: 0 <= j < |files| && files[j] == "-" ==> world[j].Opened?
  }

  /** The outcome of one `read_line` call: bytes read (never 0), 0 at end of file, or an error. */
  datatype LineRead = Line(text: string) | Eof | ReadFailed

  /**
   * `read_line` on a stream whose unread part is `rest`: it reads up to and
   * including the next '\n', or to the end of the stream.
   */
  function ReadLine(rest: string, fails: bool): (r: LineRead)
    ensures r.Line? ==> r.text == FirstLine(rest) && r.text != []
    ensures r.Line? ==> EndsLine(r.text) || (r.text == rest && !fails)
    ensures r.Line? && fails ==> NewlineCount(r.text) == 1
    ensures r.Eof? <==> rest == [] && !fails
    ensures r.ReadFailed? <==> fails && '\n' !in rest
  {
    LineEndSpec(rest);
    FirstLineIsWhole(rest);
    if '\n' in rest then Line(FirstLine(rest))
    else if fails then ReadFailed
    else if rest == [] then Eof
    else Line(rest)
  }

  /**
   * `file.take(n).read(&mut buffer)` with a buffer of n bytes: fills the
   * front of the buffer with the next bytes of the stream and returns how
   * many, or None for the stream's error when it has nothing to deliver.
   */
  method ReadInto(data: string, fails: bool, buffer: array<char>) returns (r: Option<nat>)
    modifies buffer
    ensures r.None? <==> 0 < buffer.Length && data == [] && fails
    ensures r.Some? ==> r.value == Min(buffer.Length, |data|) && buffer[..r.value] == data[..r.value]
  {
    if 0 < buffer.Length && data == [] && fails {
      return None;
    }
    var count := Min(buffer.Length, |data|);
    for k := 0 to count
      invariant buffer[..k] == data[..k]
    {
      buffer[k] := data[k];
    }
    r := Some(count);
  }

  /**
   * What head's bounded `read_line` loop prints for an opened stream: its
   * first n lines, terminators kept. When the stream fails before the n-th
   * line is complete, the complete lines before the failure are printed and
   * the run aborts.
   */
  function LineModeRead(data: string, fails: bool, n: nat): Emitted {
    if fails && NewlineCount(data) < n then Emitted(Complete(data), [], true)
    else Emitted(HeadLines(data, n), [], false)
  }

  /**
   * The line copy prints a prefix of the content that ends a line unless it
   * is all of it, writes nothing on stderr, and aborts exactly when the
   * stream fails before its n-th '\n'.
   */
  lemma LineModeReadSpec(data: string, fails: bool, n: nat)
    ensures var r := LineModeRead(data, fails, n);
            && r.err == [] && r.out <= data
            && (EndsLine(r.out) || r.out == data)
            && (r.aborted <==> fails && NewlineCount(data) < n)
  {
    HeadLinesPrefix(data, n);
    HeadLinesCount(data, n);
    CompleteIsLastLineBoundary(data);
  }

  /**
   * The loop `for _ in 0..n { read_line; break at 0; print; clear }`,
   * returning the text it prints and whether a read failed.
   */
  method CopyLines(data: string, fails: bool, n: nat) returns (text: string, aborted: bool)
    ensures Emitted(text, [], aborted) == LineModeRead(data, fails, n)
  {
    text := [];
    var pos := 0;
    var line: string := [];
    var i := 0;
    while i < n
      invariant i <= n
      invariant text == HeadLines(data, i) && pos == |text|
      invariant fails ==> EndsLine(text) && NewlineCount(text) == i
      invariant line == []
    {
      HeadLinesPrefix(data, i);
      var r := ReadLine(data[pos..], fails);
      if r.ReadFailed? {
        FailureAfterLines(data, i);
        return text, true;
      } else if r.Eof? {
        EndAfterLines(data, i, n);
        break;
      }
      line := line + r.text;
      assert line == r.text;
      NextLineRead(data, fails, i);
      text := text + line;
      pos := pos + |line|;
      line := [];
      i := i + 1;
    }
    if fails {
      HeadLinesCount(data, n);
    }
    aborted := false;
  }

  /** End of file after i lines: there are no more lines to print. */
  lemma EndAfterLines(data: string, i: nat, n: nat)
    requires i <= n
    requires data[|HeadLines(data, i)|..] == []
    ensures HeadLines(data, n) == HeadLines(data, i)
  {
    HeadLinesPrefix(data, i);
    assert data == HeadLines(data, i);
    HeadLinesSaturate(data, i, n);
  }

  /** A read that fails after i complete lines leaves exactly the complete part of the stream printed. */
  lemma FailureAfterLines(data: string, i: nat)
    requires EndsLine(HeadLines(data, i)) && NewlineCount(HeadLines(data, i)) == i
    requires '\n' !in data[|HeadLines(data, i)|..]
    ensures NewlineCount(data) == i && Complete(data) == HeadLines(data, i)
  {
    var text := HeadLines(data, i);
    HeadLinesPrefix(data, i);
    CompleteAt(data, |text|);
  }

  /** A successful `read_line` after i lines yields line i + 1. */
  lemma NextLineRead(data: string, fails: bool, i: nat)
    requires fails ==> EndsLine(HeadLines(data, i)) && NewlineCount(HeadLines(data, i)) == i
    requires ReadLine(data[|HeadLines(data, i)|..], fails).Line?
    ensures HeadLines(data, i + 1) == HeadLines(data, i) + ReadLine(data[|HeadLines(data, i)|..], fails).text
    ensures fails ==> EndsLine(HeadLines(data, i + 1)) && NewlineCount(HeadLines(data, i + 1)) == i + 1
  {
    var l := ReadLine(data[|HeadLines(data, i)|..], fails).text;
    HeadLinesStep(data, i);
    NewlineCountAppend(HeadLines(data, i), l);
    if fails {
      assert HeadLines(data, i + 1)[|HeadLines(data, i + 1)| - 1] == l[|l| - 1];
    }
  }

  /** What a run, or one file's part of it, writes to stdout and stderr, and whether a read error stopped it. */
  datatype Emitted = Emitted(out: string, err: string, aborted: bool)

  const Nothing := Emitted([], [], false)

  /** b follows a, unless a read error in a has already ended the run. */
  function Then(a: Emitted, b: Emitted): Emitted {
    if a.aborted then a else Emitted(a.out + b.out, a.err + b.err, b.aborted)
  }

  /**
   * Handling the files one after another, given what each one emits: a
   * read error (`?`) returns from `run` and the later files are not touched.
   */
  function RunPieces(ps: seq<Emitted>): Emitted {
    if ps == [] then Nothing else Then(RunPieces(ps[..|ps| - 1]), ps[|ps| - 1])
  }

  lemma RunPiecesStep(ps: seq<Emitted>, k: nat)
    requires k < |ps|
    ensures RunPieces(ps[..k + 1]) == Then(RunPieces(ps[..k]), ps[k])
  {
    assert ps[..k + 1][..k] == ps[..k];
  }

  /** The run stops at the first file whose read fails. */
  lemma StopAt(ps: seq<Emitted>, k: nat)
    requires k < |ps| && ps[k].aborted && !RunPieces(ps[..k]).aborted
    ensures RunPieces(ps) == Then(RunPieces(ps[..k]), ps[k])
  {
    RunPiecesStep(ps, k);
    AbortIsFinal(ps[..k + 1], ps[k + 1..]);
    assert ps[..k + 1] + ps[k + 1..] == ps;
  }

  /** A run fails exactly when one of its files fails. */
  lemma {:induction false} RunAbortedIff(ps: seq<Emitted>)
    ensures RunPieces(ps).aborted <==> exists j :: 0 <= j < |ps| && ps[j].aborted
  {
    if ps != [] {
      var init := ps[..|ps| - 1];
      RunAbortedIff(init);
      assert forall j :: 0 <= j < |init| ==> init[j] == ps[j];
    }
  }

  /** Nothing after a read error reaches stdout or stderr. */
  lemma {:induction false} AbortIsFinal(ps: seq<Emitted>, qs: seq<Emitted>)
    requires RunPieces(ps).aborted
    ensures RunPieces(ps + qs) == RunPieces(ps)
    decreases |qs|
  {
    if qs == [] {
      assert ps + qs == ps;
    } else {
      var all := ps + qs;
      assert all[..|all| - 1] == ps + qs[..|qs| - 1];
      AbortIsFinal(ps, qs[..|qs| - 1]);
    }
  }

  /** What has been printed stays printed: a shorter run's output is a prefix of a longer one's. */
  lemma {:induction false} RunOutputGrows(ps: seq<Emitted>, k: nat)
    requires k <= |ps|
    ensures RunPieces(ps[..k]).out <= RunPieces(ps).out
    ensures RunPieces(ps[..k]).err <= RunPieces(ps).err
    decreases |ps|
  {
    if k < |ps| {
      var init := ps[..|ps| - 1];
      assert init[..k] == ps[..k];
      RunOutputGrows(init, k);
      var a, b := RunPieces(ps[..k]), RunPieces(init);
      var c := RunPieces(ps);
      assert c.out == b.out || c.out == b.out + ps[|ps| - 1].out;
      assert c.err == b.err || c.err == b.err + ps[|ps| - 1].err;
      assert a.out == b.out[..|a.out|] && a.err == b.err[..|a.err|];
      assert b.out == c.out[..|b.out|] && b.err == c.err[..|b.err|];
      assert a.out == c.out[..|a.out|];
      assert a.err == c.err[..|a.err|];
    } else {
      assert ps[..k] == ps;
    }
  }
}
