/** String helpers the server's reply path relies on: Python 2's `str.rstrip()`,
    decimal rendering of an integer (what `str.format` does with `{2}`), and a
    line splitter used to state the shape of a reply. */
module Text {

  /** Python 2 byte-string whitespace, as tested by `str.isspace`. */
  predicate IsSpace(c: char)
  {
    c == ' ' || c == '\t' || c == '\n' || c == '\r' || c == '\U{B}' || c == '\U{C}'
  }

  /** The three facts that pin down `s.rstrip()`: it is a prefix of `s`, it does
      not end in whitespace, and everything cut off is whitespace. */
  ghost predicate IsRightStripOf(r: string, s: string)
  {
    && r <= s
    && (r == [] || !IsSpace(r[|r| - 1]))
    && forall i :: |r| <= i < |s| ==> IsSpace(s[i])
  }

  /** `s.rstrip()` with no argument. */
  function RStrip(s: string): (r: string)
    ensures IsRightStripOf(r, s)
    decreases |s|
  {
    if s != [] && IsSpace(s[|s| - 1]) then RStrip(s[..|s| - 1]) else s
  }

  /** There is only one string with the three properties, so any other
      definition of right-stripping agrees with RStrip. */
  lemma RightStripUnique(r1: string, r2: string, s: string)
    requires IsRightStripOf(r1, s) && IsRightStripOf(r2, s)
    ensures r1 == r2
  {
  }

  /** Stripping twice is stripping once. */
  lemma RStripIdempotent(s: string)
    ensures RStrip(RStrip(s)) == RStrip(s)
  {
    var r := RStrip(s);
    assert IsRightStripOf(r, r);
    RightStripUnique(RStrip(r), r, r);
  }

  function DigitChar(d: nat): (c: char)
    requires d < 10
    ensures '0' <= c <= '9'
  {
    "0123456789"[d]
  }

  function DigitValue(c: char): (d: nat)
    requires '0' <= c <= '9'
    ensures d < 10 && DigitChar(d) == c
  {
    (c - '0') as nat
  }

  predicate IsDigits(s: string)
  {
    forall i :: 0 <= i < |s| ==> '0' <= s[i] <= '9'
  }

  /** Base-10 rendering of a non-negative integer, as `"{0}".format(n)` gives it:
      at least one digit, and no leading zero unless the number is zero. */
  function Decimal(n: nat): (s: string)
    ensures |s| >= 1 && IsDigits(s)
    ensures s[0] == '0' ==> n == 0
    decreases n
  {
    if n < 10 then [DigitChar(n)] else Decimal(n / 10) + [DigitChar(n % 10)]
  }

  /** Reads a string of digits back as a number. */
  function ParseDecimal(s: string): (n: nat)
    requires IsDigits(s)
    decreases |s|
  {
    if s == [] then 0 else ParseDecimal(s[..|s| - 1]) * 10 + DigitValue(s[|s| - 1])
  }

  lemma {:induction false} DecimalRoundTrip(n: nat)
    ensures ParseDecimal(Decimal(n)) == n
    decreases n
  {
    var s := Decimal(n);
    if n >= 10 {
      DecimalRoundTrip(n / 10);
      assert s[..|s| - 1] == Decimal(n / 10);
    }
  }

  /** Decimal never maps two numbers to the same text. */
  lemma DecimalInjective(m: nat, n: nat)
    requires Decimal(m) == Decimal(n)
    ensures m == n
  {
    DecimalRoundTrip(m);
    DecimalRoundTrip(n);
  }

  /** Splits on every newline, like Python's `s.split("\n")`: a string with k
      newlines gives k + 1 pieces. */
  function Lines(s: string): (r: seq<string>)
    ensures |r| >= 1
    decreases |s|
  {
    if s == [] then [[]]
    else
      var rest := Lines(s[1..]);
      if s[0] == '\n' then [[]] + rest else [[s[0]] + rest[0]] + rest[1..]
  }

  /** A newline-free line followed by a newline is split off as one piece. */
  lemma {:induction false} LinesCons(a: string, b: string)
    requires '\n' !in a
    ensures Lines(a + "\n" + b) == [a] + Lines(b)
    decreases |a|
  {
    if a == [] {
      assert a + "\n" + b == "\n" + b;
      assert ("\n" + b)[1..] == b;
    } else {
      var s := a + "\n" + b;
      assert s[1..] == a[1..] + "\n" + b;
      assert s[0] == a[0];
      LinesCons(a[1..], b);
      assert [a[0]] + a[1..] == a;
    }
  }
}
