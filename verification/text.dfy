/**
 * Text utilities shared by the head and cat clones: counting and cutting
 * lines, splitting a stream into lines the way `BufRead::lines` does and
 * joining them back, and the decimal and right-aligned number formatting
 * used by `{}` and `{:>6}`.
 *
 * A string here stands for the raw content of a source, one char per byte.
 */
module Text {

  function Min(a: nat, b: nat): nat { if a <= b then a else b }

  /** True when t consists of whole lines: it is empty or ends in '\n'. */
  predicate EndsLine(t: string) {
    t == [] || t[|t| - 1] == '\n'
  }

  /** The number of '\n' characters in s. */
  function NewlineCount(s: string): nat {
    if s == [] then 0 else (if s[0] == '\n' then 1 else 0) + NewlineCount(s[1..])
  }

  lemma {:induction false} NewlineCountAppend(a: string, b: string)
    ensures NewlineCount(a + b) == NewlineCount(a) + NewlineCount(b)
  {
    if a == [] {
      assert a + b == b;
    } else {
      assert (a + b)[1..] == a[1..] + b;
      NewlineCountAppend(a[1..], b);
    }
  }

  lemma {:induction false} NewlineCountZero(s: string)
    ensures NewlineCount(s) == 0 <==> '\n' !in s
  {
    if s != [] {
      assert s == [s[0]] + s[1..];
      NewlineCountZero(s[1..]);
    }
  }

  /**
   * The length of the first line of s including its '\n', or |s| when s
   * holds no '\n' (the final, unterminated line). This is how far one
   * `read_line` call reads.
   */
  function LineEnd(s: string): (r: nat)
    ensures r <= |s|
    ensures s != [] ==> 0 < r
  {
    if s == [] then 0
    else if s[0] == '\n' then 1
    else 1 + LineEnd(s[1..])
  }

  /**
   * LineEnd stops right after the first '\n', or at the end of s when s
   * holds none; no '\n' comes before that point.
   */
  lemma {:induction false} LineEndSpec(s: string)
    ensures forall j :: 0 <= j < LineEnd(s) - 1 ==> s[j] != '\n'
    ensures '\n' in s ==> 0 < LineEnd(s) && s[LineEnd(s) - 1] == '\n'
    ensures '\n' !in s ==> LineEnd(s) == |s|
  {
    if s != [] && s[0] != '\n' {
      assert s == [s[0]] + s[1..];
      LineEndSpec(s[1..]);
      assert forall j :: 1 <= j < |s| ==> s[j] == s[1..][j - 1];
    }
  }

  /** The first line of s, with its '\n' if it has one. */
  function FirstLine(s: string): string {
    s[..LineEnd(s)]
  }

  lemma {:induction false} FirstLineIsWhole(s: string)
    ensures LineEnd(FirstLine(s)) == |FirstLine(s)|
    ensures NewlineCount(FirstLine(s)) == if '\n' in s then 1 else 0
  {
    var e := LineEnd(s);
    var t := s[..e];
    LineEndSpec(s);
    LineEndSpec(t);
    if '\n' in s {
      assert t == t[..e - 1] + [t[e - 1]];
      assert '\n' !in t[..e - 1];
      NewlineCountZero(t[..e - 1]);
      NewlineCountAppend(t[..e - 1], [t[e - 1]]);
      assert '\n' in t;
    } else {
      assert t == s;
      NewlineCountZero(s);
    }
  }

  /**
   * The first n lines of s, terminators kept: the text up to and including
   * the n-th '\n', or all of s when it has fewer.
   */
  function HeadLines(s: string, n: nat): (r: string)
    ensures |r| <= |s|
    decreases n
  {
    if n == 0 || s == [] then [] else s[..LineEnd(s)] + HeadLines(s[LineEnd(s)..], n - 1)
  }

  /** HeadLines(s, n) is a prefix of s. */
  lemma {:induction false} HeadLinesPrefix(s: string, n: nat)
    ensures HeadLines(s, n) == s[..|HeadLines(s, n)|]
    decreases n
  {
    if n > 0 && s != [] {
      var e := LineEnd(s);
      HeadLinesPrefix(s[e..], n - 1);
      var q := HeadLines(s[e..], n - 1);
      assert s[..e + |q|] == s[..e] + s[e..][..|q|];
    }
  }

  /**
   * HeadLines keeps min(n, NewlineCount(s)) newlines, and it ends on a line
   * boundary unless it is all of s and s has fewer than n newlines.
   */
  lemma {:induction false} HeadLinesCount(s: string, n: nat)
    ensures NewlineCount(HeadLines(s, n)) == Min(n, NewlineCount(s))
    ensures EndsLine(HeadLines(s, n)) || (HeadLines(s, n) == s && NewlineCount(s) < n)
    ensures HeadLines(s, n) != s ==> NewlineCount(HeadLines(s, n)) == n && EndsLine(HeadLines(s, n))
    decreases n
  {
    hide HeadLines, NewlineCount, LineEnd, FirstLine;
    if n == 0 || s == [] {
      HeadLinesEmpty(s, n);
      NewlineCountEmpty();
    } else {
      var e := LineEnd(s);
      var f, t := s[..e], s[e..];
      var rest := HeadLines(t, n - 1);
      HeadLinesUnfold(s, n);
      FirstLineOf(s);
      HeadLinesCount(t, n - 1);
      LineSplit(s);
      NewlineCountAppend(f, rest);
      EndsLineAppend(f, rest);
      CancelFront(f, rest, t);
      if t == [] {
        HeadLinesEmpty(t, n - 1);
      }
    }
  }

  /** Cutting s after its first line: how the newlines and the end of the line fall. */
  lemma LineSplit(s: string)
    requires s != []
    ensures var e := LineEnd(s);
            && 0 < e <= |s| && s == s[..e] + s[e..]
            && NewlineCount(s) == NewlineCount(s[..e]) + NewlineCount(s[e..])
            && ('\n' in s ==> NewlineCount(s[..e]) == 1 && s[e - 1] == '\n')
            && ('\n' !in s ==> e == |s| && NewlineCount(s) == 0)
  {
    var e := LineEnd(s);
    assert s == s[..e] + s[e..];
    NewlineCountAppend(s[..e], s[e..]);
    LineEndSpec(s);
    FirstLineIsWhole(s);
    NewlineCountZero(s);
  }

  lemma EndsLineAppend(a: string, b: string)
    ensures EndsLine(a + b) <==> if b == [] then EndsLine(a) else EndsLine(b)
  {
    if b == [] {
      assert a + b == a;
    } else {
      assert (a + b)[|a + b| - 1] == b[|b| - 1];
    }
  }

  lemma CancelFront(a: string, b: string, c: string)
    ensures a + b == a + c <==> b == c
  {
    if a + b == a + c {
      assert b == (a + b)[|a|..];
      assert c == (a + c)[|a|..];
    }
  }

  lemma HeadLinesUnfold(s: string, n: nat)
    requires s != [] && 0 < n
    ensures HeadLines(s, n) == FirstLine(s) + HeadLines(s[LineEnd(s)..], n - 1)
  {
  }

  lemma HeadLinesEmpty(s: string, n: nat)
    requires n == 0 || s == []
    ensures HeadLines(s, n) == []
  {
  }

  lemma FirstLineOf(s: string)
    ensures LineEnd(s) <= |s| && FirstLine(s) == s[..LineEnd(s)]
  {
  }

  lemma NewlineCountEmpty()
    ensures NewlineCount([]) == 0
  {
  }

  /** Reading one more line extends HeadLines by the next line of what is left. */
  lemma {:induction false} HeadLinesStep(s: string, i: nat)
    ensures HeadLines(s, i + 1) == HeadLines(s, i) + FirstLine(s[|HeadLines(s, i)|..])
    decreases i
  {
    hide HeadLines, LineEnd, FirstLine;
    FirstLineOf(s);
    if s == [] || i == 0 {
      HeadLinesEmpty(s, i);
      assert s[0..] == s;
      if s == [] {
        HeadLinesEmpty(s, i + 1);
      } else {
        HeadLinesUnfold(s, 1);
        HeadLinesEmpty(s[LineEnd(s)..], 0);
      }
    } else {
      var t := s[LineEnd(s)..];
      var q := HeadLines(t, i - 1);
      HeadLinesStep(t, i - 1);
      HeadLinesUnfold(s, i);
      HeadLinesUnfold(s, i + 1);
      assert s[|FirstLine(s)| + |q|..] == t[|q|..];
    }
  }

  /** Once HeadLines has taken all of s, asking for more lines changes nothing. */
  lemma {:induction false} HeadLinesSaturate(s: string, i: nat, m: nat)
    requires HeadLines(s, i) == s
    requires i <= m
    ensures HeadLines(s, m) == s
    decreases m - i
  {
    if i < m {
      HeadLinesStep(s, i);
      assert s[|s|..] == [];
      assert HeadLines(s, i + 1) == s;
      HeadLinesSaturate(s, i + 1, m);
    }
  }

  /**
   * The prefix of s that holds exactly n newlines and ends on a line
   * boundary is unique, and it is HeadLines(s, n).
   */
  lemma {:induction false} HeadLinesUnique(s: string, n: nat, p: string)
    requires |p| <= |s| && p == s[..|p|]
    requires NewlineCount(p) == n
    requires EndsLine(p)
    ensures HeadLines(s, n) == p
    decreases n
  {
    hide HeadLines, NewlineCount, LineEnd, FirstLine;
    if n == 0 {
      if p != [] {
        assert p == p[..|p| - 1] + [p[|p| - 1]];
        NewlineCountAppend(p[..|p| - 1], [p[|p| - 1]]);
        NewlineOne(p[|p| - 1]);
      }
      HeadLinesEmpty(s, n);
    } else {
      NewlineCountZero(p);
      var j0 :| 0 <= j0 < |p| && p[j0] == '\n';
      var e := LineEnd(s);
      assert e <= |p| by {
        assert s[j0] == '\n';
        LineEndSpec(s);
      }
      var t := p[e..];
      assert p == s[..e] + t;
      assert t == s[e..][..|t|];
      assert NewlineCount(t) == n - 1 by {
        FirstLineIsWhole(s);
        FirstLineOf(s);
        assert '\n' in s by { assert s[j0] == '\n'; }
        NewlineCountAppend(s[..e], t);
      }
      assert EndsLine(t) by {
        if t != [] {
          assert t[|t| - 1] == p[|p| - 1];
        }
      }
      HeadLinesUnique(s[e..], n - 1, t);
      HeadLinesUnfold(s, n);
      FirstLineOf(s);
    }
  }

  lemma NewlineOne(c: char)
    ensures NewlineCount([c]) == if c == '\n' then 1 else 0
  {
    assert [c][1..] == [];
  }

  /** The part of s up to and including its last '\n'. */
  function Complete(s: string): string {
    HeadLines(s, NewlineCount(s))
  }

  lemma CompleteIsLastLineBoundary(s: string)
    ensures Complete(s) <= s
    ensures EndsLine(Complete(s))
    ensures '\n' !in s[|Complete(s)|..]
  {
    var c := Complete(s);
    HeadLinesCount(s, NewlineCount(s));
    HeadLinesPrefix(s, NewlineCount(s));
    assert s == c + s[|c|..];
    NewlineCountAppend(c, s[|c|..]);
    NewlineCountZero(s[|c|..]);
  }

  /**
   * A prefix of s that ends a line and is followed by no further '\n' is
   * the complete part of s.
   */
  lemma CompleteAt(s: string, k: nat)
    requires k <= |s|
    requires EndsLine(s[..k]) && '\n' !in s[k..]
    ensures Complete(s) == s[..k]
    ensures NewlineCount(s) == NewlineCount(s[..k])
  {
    assert s == s[..k] + s[k..];
    NewlineCountAppend(s[..k], s[k..]);
    NewlineCountZero(s[k..]);
    HeadLinesUnique(s, NewlineCount(s), s[..k]);
  }

  /** A line as `lines()` yields it: without its terminating '\n'. */
  function StripNewline(l: string): string {
    if l != [] && l[|l| - 1] == '\n' then l[..|l| - 1] else l
  }

  /** The lines of s as `BufRead::lines` yields them, terminators removed. */
  function SplitLines(s: string): seq<string>
    decreases |s|
  {
    if s == [] then []
    else
      var e := LineEnd(s);
      [StripNewline(s[..e])] + SplitLines(s[e..])
  }

  /** Every line printed by `println!`, in order, each followed by one '\n'. */
  function JoinLines(ls: seq<string>): string {
    if ls == [] then [] else ls[0] + "\n" + JoinLines(ls[1..])
  }

  lemma {:induction false} LineEndAppend(a: string, b: string)
    requires '\n' in a
    ensures LineEnd(a + b) == LineEnd(a)
  {
    assert a == [a[0]] + a[1..];
    assert (a + b)[1..] == a[1..] + b;
    if a[0] != '\n' {
      LineEndAppend(a[1..], b);
    }
  }

  /** A whole line l, its '\n' last and nowhere before, splits off the front of l + s. */
  lemma SplitAfterLine(l: string, s: string)
    requires l != [] && l[|l| - 1] == '\n' && LineEnd(l) == |l|
    ensures SplitLines(l + s) == [StripNewline(l)] + SplitLines(s)
  {
    assert l[|l| - 1] in l;
    LineEndAppend(l, s);
    assert (l + s)[..|l|] == l;
    assert (l + s)[|l|..] == s;
  }

  /** A single line read by `read_line` splits into exactly that line, stripped. */
  lemma SplitFirstLine(s: string)
    requires s != []
    ensures SplitLines(FirstLine(s)) == [StripNewline(FirstLine(s))]
  {
    var l := FirstLine(s);
    FirstLineIsWhole(s);
    assert l[..LineEnd(l)] == l;
    assert l[LineEnd(l)..] == [];
  }

  /**
   * Joining lines that hold no '\n' and splitting the result again gives
   * back exactly those lines.
   */
  lemma {:induction false} SplitJoin(ls: seq<string>)
    requires forall i :: 0 <= i < |ls| ==> '\n' !in ls[i]
    ensures SplitLines(JoinLines(ls)) == ls
    decreases |ls|
  {
    if ls != [] {
      var x := ls[0];
      var l := x + "\n";
      assert '\n' !in x;
      SplitJoin(ls[1..]);
      assert LineEnd(l) == |l| by {
        assert forall j :: 0 <= j < |x| ==> l[j] == x[j];
        LineEndSpec(l);
      }
      assert l[..|l| - 1] == x;
      SplitAfterLine(l, JoinLines(ls[1..]));
      assert JoinLines(ls) == l + JoinLines(ls[1..]);
      assert ls == [x] + ls[1..];
    }
  }

  /**
   * Splitting s into lines and printing each with one '\n' gives s back,
   * with a '\n' added when the last line of s was unterminated.
   */
  lemma {:induction false} JoinSplit(s: string)
    ensures JoinLines(SplitLines(s)) == if EndsLine(s) then s else s + "\n"
    decreases |s|
  {
    hide SplitLines, JoinLines, LineEnd;
    if s == [] {
      SplitLinesUnfold(s);
      JoinLinesEmpty();
    } else {
      var e := LineEnd(s);
      var l, rest := s[..e], s[e..];
      SplitLinesUnfold(s);
      assert s == l + rest;
      JoinSplit(rest);
      JoinCons(StripNewline(l), SplitLines(rest));
      LineEndSpec(s);
      if '\n' in s {
        TerminatedLine(l);
        EndsLineAfter(l, rest);
      } else {
        assert rest == [] && l == s;
        assert s[|s| - 1] in s;
      }
    }
  }

  lemma JoinLinesEmpty()
    ensures JoinLines([]) == []
  {
  }

  lemma SplitLinesUnfold(s: string)
    ensures s == [] ==> SplitLines(s) == []
    ensures s != [] ==> LineEnd(s) <= |s| && SplitLines(s) == [StripNewline(s[..LineEnd(s)])] + SplitLines(s[LineEnd(s)..])
  {
  }

  /** Printing x and then the lines ls. */
  lemma JoinCons(x: string, ls: seq<string>)
    ensures JoinLines([x] + ls) == x + "\n" + JoinLines(ls)
  {
    assert ([x] + ls)[1..] == ls;
  }

  lemma TerminatedLine(l: string)
    requires l != [] && l[|l| - 1] == '\n'
    ensures StripNewline(l) + "\n" == l
  {
    assert l == l[..|l| - 1] + [l[|l| - 1]];
  }

  lemma EndsLineAfter(l: string, rest: string)
    requires l != [] && EndsLine(l)
    ensures EndsLine(l + rest) == EndsLine(rest)
  {
    if rest != [] {
      assert (l + rest)[|l + rest| - 1] == rest[|rest| - 1];
    }
  }

  /** The lines of s are all free of '\n'. */
  lemma {:induction false} SplitLinesHaveNoNewline(s: string)
    ensures forall i :: 0 <= i < |SplitLines(s)| ==> '\n' !in SplitLines(s)[i]
    decreases |s|
  {
    if s != [] {
      var e := LineEnd(s);
      SplitLinesHaveNoNewline(s[e..]);
      LineEndSpec(s);
      var l := s[..e];
      var t := StripNewline(l);
      assert '\n' !in t by {
        if '\n' in s {
          assert l == l[..e - 1] + [l[e - 1]];
          assert t == l[..e - 1];
          assert forall j :: 0 <= j < e - 1 ==> t[j] != '\n';
        } else {
          assert t == s;
        }
      }
    }
  }

  // ---------------------------------------------------------------------
  // Decimal numbers

  predicate IsDigit(c: char) { '0' <= c <= '9' }

  predicate AllDigits(s: string) {
    forall i :: 0 <= i < |s| ==> IsDigit(s[i])
  }

  function DigitChar(d: nat): (c: char)
    requires d < 10
    ensures IsDigit(c)
  {
    ('0' as int + d) as char
  }

  function DigitValue(c: char): nat
    requires IsDigit(c)
  {
    c as int - '0' as int
  }

  /** The value of a string of decimal digits (leading zeros allowed). */
  function DigitsValue(s: string): nat
    requires AllDigits(s)
  {
    if s == [] then 0 else DigitsValue(s[..|s| - 1]) * 10 + DigitValue(s[|s| - 1])
  }

  /** n written in decimal, as `{}` formats an integer. */
  function Decimal(n: nat): string {
    if n < 10 then [DigitChar(n)] else Decimal(n / 10) + [DigitChar(n % 10)]
  }

  /** The decimal form of n is a nonempty run of digits without a leading zero. */
  lemma {:induction false} DecimalDigits(n: nat)
    ensures 1 <= |Decimal(n)|
    ensures AllDigits(Decimal(n))
    ensures 1 < |Decimal(n)| ==> Decimal(n)[0] != '0'
  {
    if 10 <= n {
      DecimalDigits(n / 10);
      var d := Decimal(n);
      assert forall i :: 0 <= i < |d| - 1 ==> d[i] == Decimal(n / 10)[i];
      if n / 10 < 10 {
        assert Decimal(n / 10)[0] != '0';
      }
    }
  }

  /** Reading back the decimal digits of n gives n. */
  lemma {:induction false} DecimalValue(n: nat)
    ensures AllDigits(Decimal(n)) && DigitsValue(Decimal(n)) == n
  {
    DecimalDigits(n);
    var d := Decimal(n);
    if n < 10 {
      assert d[..0] == [];
    } else {
      assert d[..|d| - 1] == Decimal(n / 10);
      DecimalValue(n / 10);
    }
  }

  function Spaces(k: nat): string {
    if k == 0 then [] else Spaces(k - 1) + " "
  }

  lemma {:induction false} SpacesSpec(k: nat)
    ensures |Spaces(k)| == k && forall i :: 0 <= i < k ==> Spaces(k)[i] == ' '
  {
    if 0 < k {
      SpacesSpec(k - 1);
    }
  }

  /** n right-aligned in a field of width 6, as `{:>6}` formats it. */
  function Pad6(n: nat): string {
    var d := Decimal(n);
    if |d| < 6 then Spaces(6 - |d|) + d else d
  }

  /** The padded form is at least six wide, ends with the digits of n and has only blanks before them. */
  lemma Pad6Spec(n: nat)
    ensures |Pad6(n)| == if |Decimal(n)| < 6 then 6 else |Decimal(n)|
    ensures Pad6(n)[|Pad6(n)| - |Decimal(n)|..] == Decimal(n)
    ensures forall i :: 0 <= i < |Pad6(n)| - |Decimal(n)| ==> Pad6(n)[i] == ' '
  {
    var d := Decimal(n);
    if |d| < 6 {
      SpacesSpec(6 - |d|);
      assert Pad6(n) == Spaces(6 - |d|) + d;
    }
  }
}
