/**
 * `parse_positive_int`, which both head programs use (the draft and the
 * final version hold the same function) to check the values of --lines
 * and --bytes. It accepts what `str::parse::<usize>` accepts and then
 * rejects zero; on failure the error carries the input text unchanged.
 */
module PositiveInt {
  import opened Text
  import opened Results

  /** The digits `usize::from_str` reads: a single leading '+' is allowed and skipped. */
  function DigitsPart(s: string): string {
    if 0 < |s| && s[0] == '+' then s[1..] else s
  }

  /** What is parsed is s itself, or s without its first character when that is a '+'. */
  lemma DigitsPartSpec(s: string)
    ensures var d := DigitsPart(s);
            && |s| - 1 <= |d| <= |s| && d == s[|s| - |d|..]
            && (|d| < |s| <==> 0 < |s| && s[0] == '+')
  {
  }

  /** `str::parse::<usize>`: at least one decimal digit after an optional '+'. */
  function ParseUsize(s: string): (r: Option<nat>)
    ensures r.Some? <==> DigitsPart(s) != [] && AllDigits(DigitsPart(s))
  {
    var d := DigitsPart(s);
    if d != [] && AllDigits(d) then Some(DigitsValue(d)) else None
  }

  /**
   * `parse_positive_int`: `Ok(n)` for a text that parses as a usize n > 0;
   * otherwise an error whose text is the input itself.
   */
  function ParsePositiveInt(val: string): (r: Result<nat, string>)
    ensures r.Ok? ==> 0 < r.value && ParseUsize(val) == Some(r.value)
    ensures r.Err? ==> r.error == val
    ensures r.Err? <==> ParseUsize(val).None? || ParseUsize(val) == Some(0)
  {
    match ParseUsize(val)
    case Some(n) => if 0 < n then Ok(n) else Err(val)
    case None => Err(val)
  }

  /** Every positive number, written in decimal with or without a '+', is accepted with its own value. */
  lemma DecimalIsAccepted(n: nat)
    requires 0 < n
    ensures ParsePositiveInt(Decimal(n)) == Ok(n)
    ensures ParsePositiveInt("+" + Decimal(n)) == Ok(n)
  {
    var d := Decimal(n);
    DecimalDigits(n);
    DecimalValue(n);
    assert d[0] != '+' by {
      assert IsDigit(d[0]);
    }
    assert DigitsPart(d) == d;
    assert DigitsPart("+" + d) == d;
  }

  /**
   * A text with any character other than a digit (or a '+' in front) is
   * rejected, and so is every spelling of zero.
   */
  lemma MalformedOrZeroIsRejected(val: string)
    requires (exists i :: 0 <= i < |val| && !IsDigit(val[i]) && !(i == 0 && val[i] == '+'))
          || (DigitsPart(val) != [] && AllDigits(DigitsPart(val)) && DigitsValue(DigitsPart(val)) == 0)
    ensures ParsePositiveInt(val) == Err(val)
  {
    if exists i :: 0 <= i < |val| && !IsDigit(val[i]) && !(i == 0 && val[i] == '+') {
      var i :| 0 <= i < |val| && !IsDigit(val[i]) && !(i == 0 && val[i] == '+');
      var d := DigitsPart(val);
      if 0 < |val| && val[0] == '+' {
        assert d[i - 1] == val[i];
      } else {
        assert d[i] == val[i];
      }
    }
  }

  /** The cases the source's own test checks: "3" gives 3; "foo" and "0" fail with themselves as the error. */
  lemma SourceTestCases()
    ensures ParsePositiveInt("3") == Ok(3)
    ensures ParsePositiveInt("foo") == Err("foo")
    ensures ParsePositiveInt("0") == Err("0")
  {
    DecimalIsAccepted(3);
    assert Decimal(3) == "3";
    MalformedOrZeroIsRejected("foo");
    assert DigitsValue("0") == 0 by {
      assert "0"[..0] == [];
    }
  }
}
