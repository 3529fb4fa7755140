/** matrix_out: the matrix's text output, "{nrows, ncols, nvals}::matrix" with each
    count printed by %lu (unsigned decimal). It is a summary, not a serialisation. */
module Display {
  import opened Common
  import opened Sparse

  predicate IsDigit(ch: char) {
    '0' <= ch <= '9'
  }

  predicate AllDigits(s: string) {
    forall i | 0 <= i < |s| :: IsDigit(s[i])
  }

  function DigitChar(d: nat): (ch: char)
    requires d < 10
    ensures IsDigit(ch) && ch as int - '0' as int == d
  {
    ('0' as int + d) as char
  }

  /** %lu: the decimal digits of n, most significant first, without leading zeros. */
  function Decimal(n: nat): (s: string)
    ensures |s| >= 1 && AllDigits(s)
    ensures s[0] == '0' ==> n == 0 && |s| == 1
  {
    if n < 10 then [DigitChar(n)] else Decimal(n / 10) + [DigitChar(n % 10)]
  }

  /** The number a string of digits denotes. */
  function DigitsValue(s: string): nat
    requires AllDigits(s)
  {
    if |s| == 0 then 0 else DigitsValue(s[..|s| - 1]) * 10 + (s[|s| - 1] as int - '0' as int)
  }

  lemma {:induction false} DecimalRoundTrip(n: nat)
    ensures DigitsValue(Decimal(n)) == n
  {
    if n >= 10 {
      DecimalRoundTrip(n / 10);
      var s := Decimal(n);
      assert s[..|s| - 1] == Decimal(n / 10);
    }
  }

  /** Length of the longest run of digits at the start of s. */
  function DigitPrefix(s: string): (p: nat)
    ensures p <= |s| && AllDigits(s[..p])
    ensures p < |s| ==> !IsDigit(s[p])
  {
    if |s| == 0 || !IsDigit(s[0]) then 0
    else
      var p := 1 + DigitPrefix(s[1..]);
      assert s[..p] == [s[0]] + s[1..][..p - 1];
      p
  }

  lemma {:induction false} DigitPrefixOfDigits(d: string, rest: string)
    requires AllDigits(d)
    requires rest == [] || !IsDigit(rest[0])
    ensures DigitPrefix(d + rest) == |d|
    decreases |d|
  {
    if |d| > 0 {
      assert (d + rest)[1..] == d[1..] + rest;
      DigitPrefixOfDigits(d[1..], rest);
    }
  }

  /** Reads a decimal number followed by the separator sep; gives the number and
      what follows the separator. */
  function ReadNumber(s: string, sep: string): Option<(nat, string)> {
    var p := DigitPrefix(s);
    if p == 0 || !(sep <= s[p..]) then None
    else Some((DigitsValue(s[..p]), s[p + |sep|..]))
  }

  lemma ReadNumberOfDecimal(n: nat, sep: string, rest: string)
    requires sep != [] && !IsDigit(sep[0])
    ensures ReadNumber(Decimal(n) + sep + rest, sep) == Some((n, rest))
  {
    var d := Decimal(n);
    var s := d + sep + rest;
    assert s == d + (sep + rest);
    DigitPrefixOfDigits(d, sep + rest);
    assert s[..|d|] == d;
    assert s[|d|..] == sep + rest;
    assert s[|d| + |sep|..] == rest;
    DecimalRoundTrip(n);
  }

  /** Recovers (nrows, ncols, nvals) from a display string. */
  function ParseDisplay(s: string): Option<(nat, nat, nat)> {
    if |s| == 0 || s[0] != '{' then None
    else match ReadNumber(s[1..], ", ")
      case None => None
      case Some((r, s2)) =>
        match ReadNumber(s2, ", ")
        case None => None
        case Some((c, s3)) =>
          match ReadNumber(s3, "}::matrix")
          case None => None
          case Some((v, rest)) => if rest == [] then Some((r, c, v)) else None
  }

  /** psprintf("{%lu, %lu, %lu}::matrix", nrows, ncols, nvals). */
  function Format(nrows: nat, ncols: nat, nvals: nat): string {
    "{" + Decimal(nrows) + ", " + Decimal(ncols) + ", " + Decimal(nvals) + "}::matrix"
  }

  /** The display string determines the three counts it prints. */
  lemma FormatRoundTrip(nrows: nat, ncols: nat, nvals: nat)
    ensures ParseDisplay(Format(nrows, ncols, nvals)) == Some((nrows, ncols, nvals))
  {
    var s := Format(nrows, ncols, nvals);
    var s3 := Decimal(nvals) + "}::matrix" + [];
    var s2 := Decimal(ncols) + ", " + s3;
    assert s[1..] == Decimal(nrows) + ", " + s2;
    ReadNumberOfDecimal(nrows, ", ", s2);
    ReadNumberOfDecimal(ncols, ", ", s3);
    ReadNumberOfDecimal(nvals, "}::matrix", []);
  }

  /** matrix_out: reads the shape and nvals of m and prints them; m is a value and is
      left as it was. */
  function MatrixOut(m: Matrix): (s: string)
    requires m.Valid()
    ensures s == "{" + Decimal(m.nrows) + ", " + Decimal(m.ncols) + ", " + Decimal(NVals(m)) + "}::matrix"
    ensures ParseDisplay(s) == Some((m.nrows, m.ncols, NVals(m)))
  {
    FormatRoundTrip(m.nrows, m.ncols, NVals(m));
    Format(m.nrows, m.ncols, NVals(m))
  }

  /** A 3 x 3 matrix with two entries displays as "{3, 3, 2}::matrix". */
  lemma DisplayExample()
    ensures MatrixOut(Matrix(3, 3, map[(0, 0) := 1, (1, 1) := 1])) == "{3, 3, 2}::matrix"
  {
    var m := Matrix(3, 3, map[(0, 0) := 1, (1, 1) := 1]);
    assert m.entries.Keys == {(0, 0), (1, 1)};
    assert NVals(m) == 2;
    assert Decimal(3) == ['3'] && Decimal(2) == ['2'];
    assert Format(3, 3, 2) == "{3, 3, 2}::matrix";
  }
}
